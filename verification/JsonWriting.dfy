/** Which values a JSON text can denote for this program. */
module JsonWriting {
  import opened JsonGrammar
  import opened JsonLexemes
  import opened JsonLexer
  import opened JsonMeaning
  import opened JsonNumbers
  import opened JsonText
  import opened JsonValues
  import opened Wrappers

  /** Values whose strings and keys can be said and whose numbers are finite decimals. */
  ghost predicate Readable(v: Json) {
    match v
    case JNumber(r) => Decimal(r)
    case JString(s) => Sayable(s)
    case JArray(vs) => forall i :: 0 <= i < |vs| ==> Readable(vs[i])
    case JObject(m) => forall k :: k in m ==> Sayable(k) && Readable(m[k])
    case _ => true
  }

  /** t is one way to write v down; the members of an object may come in any order. */
  ghost predicate Writes(t: Tree, v: Json) {
    LexicalTree(t) && Meaning(t) == v
  }

  lemma {:induction false} Writable(v: Json) returns (t: Tree)
    requires Readable(v)
    ensures Writes(t, v)
    decreases v, 1
  {
    hide Unescape, NumberValue, StringText, NumberText, Sayable, Decimal;
    match v
    case JNull => t := TNull;
    case JBool(b) => t := if b then TTrue else TFalse;
    case JNumber(r) =>
      DecimalsExactly(r);
      var s :| NumberText(s) && NumberValue(s) == r;
      t := TNumber(s);
    case JString(w) =>
      SayableExactly(w);
      var s :| StringText(s) && Unescape(s) == w;
      t := TString(s);
    case JArray(vs) =>
      var ts := WritableElements(vs);
      t := TArray(ts);
    case JObject(m) =>
      var ms := WritableMembers(v, m);
      t := TObject(ms);
  }

  lemma {:induction false} WritableElements(vs: seq<Json>) returns (ts: seq<Tree>)
    requires forall i :: 0 <= i < |vs| ==> Readable(vs[i])
    ensures forall i :: 0 <= i < |ts| ==> LexicalTree(ts[i])
    ensures MeaningElements(ts) == vs
    decreases vs, 0
  {
    ts := [];
    if vs != [] {
      var n := |vs| - 1;
      ts := WritableElements(vs[..n]);
      var t := Writable(vs[n]);
      hide Meaning, LexicalTree, Readable;
      assert (ts + [t])[..|ts|] == ts;
      ts := ts + [t];
      assert vs == vs[..n] + [vs[n]];
    }
  }

  lemma {:induction false} WritableMembers(v: Json, m: map<string, Json>) returns (ms: seq<Member>)
    requires v.JObject? && forall k :: k in m ==> k in v.members && m[k] == v.members[k]
    requires Readable(v)
    ensures Writes(TObject(ms), JObject(m))
    decreases v, 0, |m|
  {
    ms := [];
    if m == map[] {
      assert Writes(TObject(ms), JObject(m));
    } else {
      var k :| k in m;
      var rest := m - {k};
      assert Sayable(k) && Readable(v.members[k]);
      hide *;
      TakeKey(m, k);
      ms := WritableMembers(v, rest);
      var t := Writable(v.members[k]);
      SayableExactly(k);
      var s :| StringText(s) && Unescape(s) == k;
      MemberAdded(ms, rest, s, t, v.members[k]);
      ms := ms + [Member(s, t)];
    }
  }

  lemma {:induction false} TakeKey<T>(m: map<string, T>, k: string)
    requires k in m
    ensures m == (m - {k})[k := m[k]] && |m - {k}| < |m|
  {
    var rest := m - {k};
    assert m == rest[k := m[k]];
    assert m.Keys == rest.Keys + {k};
  }

  lemma {:induction false} MemberAdded(ms: seq<Member>, m: map<string, Json>, s: string, t: Tree, v: Json)
    requires Writes(TObject(ms), JObject(m)) && StringText(s) && Writes(t, v)
    ensures Writes(TObject(ms + [Member(s, t)]), JObject(m[Unescape(s) := v]))
  {
    var all := ms + [Member(s, t)];
    assert all[..|ms|] == ms;
    assert Meaning(TObject(all)) == JObject(m[Unescape(s) := v]) by {
      hide LexicalTree, Unescape, StringText;
    }
    hide Meaning, StringText, Unescape;
    forall i | 0 <= i < |all|
      ensures StringText(all[i].key) && LexicalTree(all[i].value)
    {
      assert i < |ms| ==> all[i] == ms[i];
    }
  }

  // ---- every value read is such a value ----

  lemma {:induction false} MeaningReadable(t: Tree)
    requires LexicalTree(t)
    ensures Readable(Meaning(t))
    decreases t, 1
  {
    hide Unescape, NumberValue, StringText, NumberText, Sayable, Decimal;
    match t
    case TString(s) => OnlySayable(s);
    case TNumber(s) => OnlyDecimals(s);
    case TArray(ts) => ElementsReadable(ts);
    case TObject(ms) => MembersReadable(ms);
    case _ =>
  }

  lemma {:induction false} ElementsReadable(ts: seq<Tree>)
    requires forall i :: 0 <= i < |ts| ==> LexicalTree(ts[i])
    ensures Readable(JArray(MeaningElements(ts)))
    decreases ts, 0
  {
    if ts != [] {
      var n := |ts| - 1;
      ElementsReadable(ts[..n]);
      MeaningReadable(ts[n]);
      hide Meaning, LexicalTree;
      var vs := MeaningElements(ts[..n]);
      assert MeaningElements(ts) == vs + [Meaning(ts[n])];
    }
  }

  lemma {:induction false} MembersReadable(ms: seq<Member>)
    requires forall i :: 0 <= i < |ms| ==> StringText(ms[i].key) && LexicalTree(ms[i].value)
    ensures Readable(JObject(MeaningMembers(ms)))
    decreases ms, 0
  {
    if ms != [] {
      var n := |ms| - 1;
      MembersReadable(ms[..n]);
      MeaningReadable(ms[n].value);
      OnlySayable(ms[n].key);
      hide Meaning, LexicalTree, StringText, Unescape, Sayable;
    }
  }

  // ---- texts ----

  function NoSpace(n: nat): (ws: seq<string>)
    ensures |ws| == n && forall i :: 0 <= i < n ==> ws[i] == ""
  {
    seq(n, i => "")
  }

  /** Exactly these values can be read from some text, and a value is read from every text that writes down
      a tree that means it: with members in any order and white space anywhere between tokens. */
  lemma {:induction false} ReadableExactly(v: Json)
    ensures (exists text :: Parse(Tokens(text)) == Ok(v)) <==> Readable(v)
    ensures forall text, t, ws :: WritesTree(text, t, ws) && Meaning(t) == v ==> Parse(Tokens(text)) == Ok(v)
  {
    hide Parse, Tokens, Meaning, Yield, Render, LexicalTree, Readable, WritesTree;
    if text :| Parse(Tokens(text)) == Ok(v) {
      TextCorrect(text, v);
      var t, ws :| WritesTree(text, t, ws) && Meaning(t) == v;
      WrittenLexical(text, t, ws);
      MeaningReadable(t);
    }
    if Readable(v) {
      var t := Writable(v);
      var ws := NoSpace(|Yield(t)| + 1);
      var text := Render(Yield(t), ws);
      NoSpaceWrites(t);
      TextCorrect(text, v);
    }
    forall text, t, ws | WritesTree(text, t, ws) && Meaning(t) == v
      ensures Parse(Tokens(text)) == Ok(v)
    {
      TextCorrect(text, v);
    }
  }

  lemma {:induction false} WrittenLexical(text: string, t: Tree, ws: seq<string>)
    requires WritesTree(text, t, ws)
    ensures LexicalTree(t)
  {
    hide LexicalTree, Yield, Render;
  }

  lemma {:induction false} NoSpaceWrites(t: Tree)
    requires LexicalTree(t)
    ensures var ws := NoSpace(|Yield(t)| + 1);
            WritesTree(Render(Yield(t), ws), t, ws)
  {
    hide LexicalTree, Yield, Render;
  }

  /** In particular with the white space of RFC 8259, section 2: blank, tab, line feed and carriage return. */
  lemma {:induction false} StandardText(t: Tree, ws: seq<string>)
    requires LexicalTree(t) && |ws| == |Yield(t)| + 1
    requires forall i, j :: 0 <= i < |ws| && 0 <= j < |ws[i]| ==> ws[i][j] in {' ', '\t', '\n', '\r'}
    ensures Parse(Tokens(Render(Yield(t), ws))) == Ok(Meaning(t))
  {
    forall i | 0 <= i < |ws|
      ensures Gap(ws[i])
    {
      StandardGap(ws[i]);
    }
    hide LexicalTree, Yield, Render, Gap, Parse, Tokens, Meaning;
    var text := Render(Yield(t), ws);
    assert WritesTree(text, t, ws);
    TextCorrect(text, Meaning(t));
  }

  lemma {:induction false} StandardGap(w: string)
    requires forall j :: 0 <= j < |w| ==> w[j] in {' ', '\t', '\n', '\r'}
    ensures Gap(w)
  {
  }
}
