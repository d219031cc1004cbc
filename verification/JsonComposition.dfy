/** What a JSON text denotes, composed from what its parts denote, in literal text: names, numbers, strings,
    and lists and objects of texts that can be read. */
module JsonComposition {
  import opened JsonGrammar
  import opened JsonLexemes
  import opened JsonLexer
  import opened JsonParser
  import opened JsonScan
  import opened JsonText
  import opened JsonValues
  import opened Regex
  import opened Wrappers

  // ---- joining spelled texts ----

  /** Two spelled texts, with a bracket, a comma or a colon between them. */
  lemma {:induction false} SpelledJoin(
      a: string, ts: seq<Token>, ws: seq<string>, x: Token, b: string, us: seq<Token>, vs: seq<string>)
    returns (zs: seq<string>)
    requires Spelled(a, ts, ws) && Spelled(b, us, vs) && Lexical(x) && x.Fixed? && !Wordy(x)
    ensures Spelled(a + (Spelling(x) + b), ts + [x] + us, zs)
    decreases |ts|
  {
    hide Spelled, Lexical, Wordy, Spelling, Gap, Render;
    SpelledParts(a, ts, ws);
    RenderHead(ts, ws);
    var tail := Spelling(x) + b;
    if ts == [] {
      SpelledCons(x, b, us, vs);
      assert a == ws[0];
      zs := SpelledSkip(a, tail, [x] + us, [""] + vs);
      assert ts + [x] + us == [x] + us;
    } else {
      var t, rest := ts[0], Render(ts[1..], ws[1..]);
      SpelledTail(a, ts, ws);
      var ys := SpelledJoin(rest, ts[1..], ws[1..], x, b, us, vs);
      if Wordy(t) {
        BehindWord(rest, ts[1..], ws[1..], x, tail);
      }
      SpelledCons(t, rest + tail, ts[1..] + [x] + us, ys);
      zs := SpelledSkip(ws[0], Spelling(t) + (rest + tail), [t] + (ts[1..] + [x] + us), [""] + ys);
      assert a + tail == ws[0] + (Spelling(t) + (rest + tail));
      assert [t] + (ts[1..] + [x] + us) == ts + [x] + us;
    }
  }

  lemma {:induction false} BehindWord(rest: string, ts: seq<Token>, ws: seq<string>, x: Token, tail: string)
    requires Spelled(rest, ts, ws) && (ts != [] && StartsWord(ts[0]) ==> ws[0] != [])
    requires Lexical(x) && x.Fixed? && !Wordy(x) && Spelling(x) <= tail
    ensures rest + tail != [] && !IsWord((rest + tail)[0])
  {
    SpelledParts(rest, ts, ws);
    SpellingStarts(x);
    hide Spelled, Lexical, Wordy, StartsWord, Spelling, Gap, Render;
    WordEndsInRender(ts, ws);
    assert rest == [] ==> (rest + tail)[0] == Spelling(x)[0];
  }

  // ---- leaves ----

  lemma {:induction false} ReadsAs(text: string, t: Tree, ws: seq<string>)
    requires Spelled(text, Yield(t), ws)
    ensures Parse(Tokens(text)) == Ok(Meaning(t))
  {
    hide Spelled, WritesTree, Meaning, Parse, Tokens, Yield;
    TreeSpelled(text, t, ws);
    TextCorrect(text, Meaning(t));
  }

  lemma {:induction false} OneToken(t: Tree, x: Token)
    requires Yield(t) == [x] && Lexical(x)
    ensures Spelled(Spelling(x), Yield(t), ["", ""])
    ensures Parse(Tokens(Spelling(x))) == Ok(Meaning(t))
  {
    hide Lexical, Yield, Spelling, Meaning, Parse, Tokens, Spelled;
    NothingSpelled();
    SpelledCons(x, "", [], [""]);
    assert Spelling(x) + "" == Spelling(x) && [x] + [] == [x] && [""] + [""] == ["", ""];
    ReadsAs(Spelling(x), t, ["", ""]);
  }

  lemma {:induction false} NameTexts()
    ensures Parse(Tokens("true")) == Ok(JBool(true)) && Parse(Tokens("false")) == Ok(JBool(false))
    ensures Parse(Tokens("null")) == Ok(JNull)
  {
    hide Parse, Tokens;
    OneToken(TTrue, Fixed(TRUE));
    OneToken(TFalse, Fixed(FALSE));
    OneToken(TNull, Fixed(NULL));
  }

  /** A number denotes its value, and a string what the chain of replacements makes of it. */
  lemma {:induction false} LeafTexts(s: string)
    ensures NumberText(s) ==> Parse(Tokens(s)) == Ok(JNumber(NumberValue(s)))
    ensures StringText(s) ==> Parse(Tokens("\"" + s + "\"")) == Ok(JString(Unescape(s)))
  {
    hide Parse, Tokens, NumberText, StringText, NumberValue, Unescape;
    if NumberText(s) {
      OneToken(TNumber(s), NumberToken(s));
    }
    if StringText(s) {
      OneToken(TString(s), StringToken(s));
    }
  }

  /** White space around a text changes nothing. */
  lemma {:induction false} SpacedText(text: string, v: Json, before: string, behind: string)
    requires Parse(Tokens(text)) == Ok(v) && Gap(before) && Gap(behind)
    ensures Parse(Tokens(before + (text + behind))) == Ok(v)
  {
    hide Parse, Tokens, Meaning, Spelled, Gap, Yield;
    var t, ws := SomeTree(text, v);
    var zs := SpelledBehind(text, Yield(t), ws, behind);
    zs := SpelledSkip(before, text + behind, Yield(t), zs);
    ReadsAs(before + (text + behind), t, zs);
  }

  lemma {:induction false} SpelledBehind(text: string, ts: seq<Token>, ws: seq<string>, w: string)
    returns (zs: seq<string>)
    requires Spelled(text, ts, ws) && Gap(w)
    ensures Spelled(text + w, ts, zs)
  {
    var n := |ts|;
    zs := ws[..n] + [ws[n] + w];
    assert forall i :: 0 <= i < n ==> zs[i] == ws[i];
    hide Lexical, Wordy, StartsWord, Blank;
    RenderBehind(ts, ws, zs, w);
  }

  lemma {:induction false} RenderBehind(ts: seq<Token>, ws: seq<string>, zs: seq<string>, w: string)
    requires |ws| == |ts| + 1 == |zs| && zs == ws[..|ts|] + [ws[|ts|] + w]
    ensures Render(ts, zs) == Render(ts, ws) + w
  {
    hide Spelling;
    if ts != [] {
      assert zs[1..] == ws[1..][..|ts| - 1] + [ws[1..][|ts| - 1] + w];
      RenderBehind(ts[1..], ws[1..], zs[1..], w);
      RenderHead(ts, ws);
      RenderHead(ts, zs);
      hide Render;
      var s, r := Spelling(ts[0]), Render(ts[1..], ws[1..]);
      assert ws[0] + (s + (r + w)) == ws[0] + (s + r) + w;
    }
  }

  lemma {:induction false} SomeTree(text: string, v: Json) returns (t: Tree, ws: seq<string>)
    requires Parse(Tokens(text)) == Ok(v)
    ensures Spelled(text, Yield(t), ws) && Meaning(t) == v
  {
    hide Parse, Tokens, WritesTree, Spelled, Yield, Meaning;
    TextCorrect(text, v);
    t, ws :| WritesTree(text, t, ws) && Meaning(t) == v;
    TreeSpelled(text, t, ws);
  }

  // ---- lists ----

  function Commas(texts: seq<string>): string {
    if texts == [] then ""
    else if |texts| == 1 then texts[0]
    else Commas(texts[..|texts| - 1]) + ("," + texts[|texts| - 1])
  }

  /** Each of the texts is read as the value in its place. */
  ghost predicate AllRead(texts: seq<string>, vs: seq<Json>) {
    |texts| == |vs| && forall i :: 0 <= i < |vs| ==> Parse(Tokens(texts[i])) == Ok(vs[i])
  }

  lemma {:induction false} LastRead(texts: seq<string>, vs: seq<Json>)
    requires AllRead(texts, vs) && texts != []
    ensures var n := |texts| - 1;
            && |vs| == n + 1 && AllRead(texts[..n], vs[..n]) && Parse(Tokens(texts[n])) == Ok(vs[n])
            && vs == vs[..n] + [vs[n]]
  {
    hide Parse, Tokens;
  }

  lemma {:induction false} ElementTexts(texts: seq<string>, vs: seq<Json>) returns (ts: seq<Tree>, ws: seq<string>)
    requires AllRead(texts, vs)
    ensures MeaningElements(ts) == vs && Spelled(Commas(texts), YieldElements(ts), ws)
    ensures ts == [] ==> vs == []
  {
    var comma := Fixed(COMMA);
    assert |texts| == |vs|;
    hide *;
    NoElements();
    if texts == [] {
      ts, ws := [], [""];
    } else {
      var n := |texts| - 1;
      LastRead(texts, vs);
      LastText(texts);
      var t, us := SomeTree(texts[n], vs[n]);
      if n == 0 {
        SingletonLists(Member("", t), t);
        ts, ws := [t], us;
      } else {
        ts, ws := ElementTexts(texts[..n], vs[..n]);
        AppendElement(ts, t);
        CommaNotWordy();
        ws := SpelledJoin(Commas(texts[..n]), YieldElements(ts), ws, comma, texts[n], Yield(t), us);
        ts := ts + [t];
      }
    }
  }

  lemma {:induction false} NoElements()
    ensures MeaningElements([]) == [] && Spelled(Commas([]), YieldElements([]), [""])
  {
    NothingSpelled();
  }

  lemma {:induction false} LastText(texts: seq<string>)
    requires texts != []
    ensures var n := |texts| - 1;
            Commas(texts) == if n == 0 then texts[n] else Commas(texts[..n]) + ("," + texts[n])
  {
  }

  /** Texts in brackets, with commas between them, denote the array of what they denote. */
  lemma {:induction false} ArrayText(texts: seq<string>, vs: seq<Json>)
    requires AllRead(texts, vs)
    ensures Parse(Tokens("[" + (Commas(texts) + "]"))) == Ok(JArray(vs))
  {
    hide Parse, Tokens, Spelled, Commas, MeaningElements, YieldElements, AllRead;
    var ts, ws := ElementTexts(texts, vs);
    var zs := Bracketed(Fixed(LBRACKET), Commas(texts), YieldElements(ts), ws, Fixed(RBRACKET));
    assert Yield(TArray(ts)) == [Fixed(LBRACKET)] + YieldElements(ts) + [Fixed(RBRACKET)];
    ReadsAs("[" + (Commas(texts) + "]"), TArray(ts), zs);
  }

  lemma {:induction false} Bracketed(open: Token, a: string, ts: seq<Token>, ws: seq<string>, close: Token)
    returns (zs: seq<string>)
    requires Spelled(a, ts, ws) && open.Fixed? && close.Fixed?
    requires open.symbol in {LBRACE, LBRACKET} && close.symbol in {RBRACE, RBRACKET}
    ensures Spelled(Spelling(open) + (a + Spelling(close)), [open] + ts + [close], zs)
  {
    hide Spelled, Spelling;
    NothingSpelled();
    zs := SpelledJoin(a, ts, ws, close, "", [], [""]);
    var s := a + Spelling(close);
    assert a + (Spelling(close) + "") == s && ts + [close] + [] == ts + [close];
    SpelledCons(open, s, ts + [close], zs);
    zs := [""] + zs;
    assert [open] + (ts + [close]) == [open] + ts + [close];
  }

  // ---- objects ----

  /** A key, as it stands between its quotes, with a text for its value. */
  datatype Pair = Pair(key: string, text: string, value: Json)

  ghost predicate Denotes(p: Pair) {
    StringText(p.key) && Parse(Tokens(p.text)) == Ok(p.value)
  }

  function PairText(p: Pair): string {
    "\"" + p.key + "\"" + (":" + p.text)
  }

  function Pairs(ps: seq<Pair>): string {
    if ps == [] then ""
    else if |ps| == 1 then PairText(ps[0])
    else Pairs(ps[..|ps| - 1]) + ("," + PairText(ps[|ps| - 1]))
  }

  /** Of two members with the same key the later one counts. */
  function Object(ps: seq<Pair>): map<string, Json> {
    if ps == [] then map[] else Object(ps[..|ps| - 1])[Unescape(ps[|ps| - 1].key) := ps[|ps| - 1].value]
  }

  lemma {:induction false} MemberText(p: Pair) returns (m: Member, ws: seq<string>)
    requires Denotes(p)
    ensures m.key == p.key && Meaning(m.value) == p.value && Spelled(PairText(p), YieldMember(m), ws)
  {
    hide Parse, Tokens, Spelled, Meaning, StringText;
    var t;
    t, ws := SomeTree(p.text, p.value);
    m := Member(p.key, t);
    var x := StringToken(p.key);
    OneToken(TString(p.key), x);
    assert Yield(TString(p.key)) == [x];
    ws := SpelledJoin(Spelling(x), [x], ["", ""], Fixed(COLON), p.text, Yield(t), ws);
    assert [x] + [Fixed(COLON)] + Yield(t) == YieldMember(m);
  }

  lemma {:induction false} LastPair(ps: seq<Pair>)
    requires ps != []
    ensures var n := |ps| - 1;
            && Pairs(ps) == (if n == 0 then PairText(ps[n]) else Pairs(ps[..n]) + ("," + PairText(ps[n])))
            && Object(ps) == Object(ps[..n])[Unescape(ps[n].key) := ps[n].value]
  {
    hide PairText, Unescape;
  }

  lemma {:induction false} MemberTexts(ps: seq<Pair>) returns (ms: seq<Member>, ws: seq<string>)
    requires forall i :: 0 <= i < |ps| ==> Denotes(ps[i])
    ensures |ms| == |ps| && MeaningMembers(ms) == Object(ps) && Spelled(Pairs(ps), YieldMembers(ms), ws)
  {
    if ps == [] {
      ms, ws := [], [""];
      NothingSpelled();
    } else {
      var n := |ps| - 1;
      LastPair(ps);
      var comma := Fixed(COMMA);
      hide *;
      var m, us := MemberText(ps[n]);
      if n == 0 {
        ms, ws := [m], us;
        SingletonLists(m, TNull);
        assert ps[..0] == [];
        NoPairs();
      } else {
        ms, ws := MemberTexts(ps[..n]);
        AppendMember(ms, m);
        CommaNotWordy();
        ws := SpelledJoin(Pairs(ps[..n]), YieldMembers(ms), ws, comma, PairText(ps[n]), YieldMember(m), us);
        ms := ms + [m];
      }
    }
  }

  lemma {:induction false} NoPairs()
    ensures Object([]) == map[]
  {
  }

  lemma {:induction false} CommaNotWordy()
    ensures Lexical(Fixed(COMMA)) && !Wordy(Fixed(COMMA)) && Spelling(Fixed(COMMA)) == ","
  {
  }

  /** Members in braces, with commas between them, denote the object of what they denote. */
  lemma {:induction false} ObjectText(ps: seq<Pair>)
    requires forall i :: 0 <= i < |ps| ==> Denotes(ps[i])
    ensures Parse(Tokens("{" + (Pairs(ps) + "}"))) == Ok(JObject(Object(ps)))
  {
    hide Parse, Tokens, Spelled, Pairs, MeaningMembers, YieldMembers, Denotes, Object;
    var ms, ws := MemberTexts(ps);
    var zs := Bracketed(Fixed(LBRACE), Pairs(ps), YieldMembers(ms), ws, Fixed(RBRACE));
    assert Yield(TObject(ms)) == [Fixed(LBRACE)] + YieldMembers(ms) + [Fixed(RBRACE)];
    ReadsAs("{" + (Pairs(ps) + "}"), TObject(ms), zs);
  }
}
