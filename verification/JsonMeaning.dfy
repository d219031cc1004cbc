/** What the string and number lexemes come to: the chain of replacements against the escapes of RFC 8259,
    section 7, and the decimal value of every form of a number. */
module JsonMeaning {
  import opened JsonValues
  import opened JsonLexemes

  // ---- strings: the chain of replacements in one pass ----

  /** The place of a letter in the chain, and the control character it stands for. */
  function Place(c: char): nat {
    match c
    case 'n' => 0
    case 'r' => 1
    case 't' => 2
    case 'v' => 3
    case 'f' => 4
    case 'b' => 5
    case _ => 6
  }

  function Control(k: nat): char {
    match k
    case 0 => '\n'
    case 1 => '\r'
    case 2 => '\t'
    case 3 => '\U{0B}'
    case 4 => '\U{0C}'
    case _ => '\U{08}'
  }

  /** A backslash and one of the first k letters become a control character, from left to right. */
  function Controls(s: string, k: nat): string {
    if |s| >= 2 && s[0] == '\\' && Place(s[1]) < k then [Control(Place(s[1]))] + Controls(s[2..], k)
    else if s == [] then []
    else [s[0]] + Controls(s[1..], k)
  }

  lemma {:induction false} NoControls(s: string, k: nat)
    requires k == 0
    ensures Controls(s, k) == s
  {
    if s != [] {
      NoControls(s[1..], k);
    }
  }

  lemma {:induction false} ReplaceCons(c: char, s: string, letter: char, into: char)
    ensures c != '\\' || (s != [] && s[0] != letter) || s == [] ==>
              Replace([c] + s, letter, into) == [c] + Replace(s, letter, into)
    ensures c == '\\' && s != [] && s[0] == letter ==>
              Replace([c] + s, letter, into) == [into] + Replace(s[1..], letter, into)
  {
    var t := [c] + s;
    assert t[1..] == s;
    if s != [] {
      assert t[2..] == s[1..] && t[1] == s[0];
    }
  }

  lemma {:induction false} ControlsHead(s: string, k: nat)
    requires s != [] && k <= 6
    ensures Controls(s, k) != [] && (Controls(s, k)[0] == s[0] || Place(Controls(s, k)[0]) == 6)
    ensures s[0] != '\\' ==> Controls(s, k) == [s[0]] + Controls(s[1..], k)
  {
  }

  /** One more replacement is one more letter. */
  lemma {:induction false} OneMoreLetter(s: string, k: nat, letter: char)
    requires Place(letter) == k < 6
    ensures Replace(Controls(s, k), letter, Control(k)) == Controls(s, k + 1)
    decreases |s|
  {
    var into, next := Control(k), k + 1;
    if s == [] {
    } else if |s| >= 2 && s[0] == '\\' && Place(s[1]) < next {
      OneMoreLetter(s[2..], k, letter);
      if Place(s[1]) < k {
        ReplaceCons(Control(Place(s[1])), Controls(s[2..], k), letter, into);
      } else {
        var rest := s[1..];
        assert s[1] == letter && rest[1..] == s[2..];
        ControlsHead(rest, k);
        ReplaceCons('\\', [letter] + Controls(s[2..], k), letter, into);
        assert ([letter] + Controls(s[2..], k))[1..] == Controls(s[2..], k);
      }
    } else {
      OneMoreLetter(s[1..], k, letter);
      if |s| >= 2 {
        ControlsHead(s[1..], k);
      }
      ReplaceCons(s[0], Controls(s[1..], k), letter, into);
    }
  }

  /** The seven replacements, one after the other, come to two passes: one that drops backslashes, and one
      that puts in control characters. */
  lemma {:induction false} UnescapeTwice(s: string)
    ensures Unescape(s) == Controls(DropBackslash(s), 6)
  {
    var t := DropBackslash(s);
    assert Place('n') == 0 && Place('r') == 1 && Place('t') == 2 && Place('v') == 3 && Place('f') == 4;
    assert Place('b') == 5 && Control(0) == '\n' && Control(1) == '\r' && Control(2) == '\t';
    assert Control(3) == '\U{0B}' && Control(4) == '\U{0C}' && Control(5) == '\U{08}';
    hide Place, Control, Controls, Replace, DropBackslash;
    NoControls(t, 0);
    OneMoreLetter(t, 0, 'n');
    OneMoreLetter(t, 1, 'r');
    OneMoreLetter(t, 2, 't');
    OneMoreLetter(t, 3, 'v');
    OneMoreLetter(t, 4, 'f');
    OneMoreLetter(t, 5, 'b');
  }

  // ---- item by item ----

  lemma {:induction false} ControlsCons(c: char, t: string)
    ensures c != '\\' || t == [] || Place(t[0]) == 6 ==> Controls([c] + t, 6) == [c] + Controls(t, 6)
    ensures c == '\\' && t != [] && Place(t[0]) < 6 ==>
              Controls([c] + t, 6) == [Control(Place(t[0]))] + Controls(t[1..], 6)
  {
    var u := [c] + t;
    assert u[1..] == t;
    if t != [] {
      assert u[2..] == t[1..] && u[1] == t[0];
    }
  }

  lemma {:induction false} UnicodeItem(s: string)
    requires ItemLength(s) == 6
    ensures s[0] == '\\' && s[1] == 'u' && forall i :: 1 <= i < 6 ==> s[i] != '\\'
  {
    assert HexDigit(s[2]) && HexDigit(s[3]) && HexDigit(s[4]) && HexDigit(s[5]) && s[1] == 'u';
    hide ItemLength;
  }

  /** A backslash is dropped in front of a backslash or a quote, and nothing else is. */
  lemma {:induction false} DropItem(s: string)
    requires s != [] && StringText(s)
    ensures var n := ItemLength(s);
            && (n == 1 ==> DropBackslash(s) == [s[0]] + DropBackslash(s[1..]))
            && (n == 2 && (s[1] == '\\' || s[1] == '"') ==> DropBackslash(s) == [s[1]] + DropBackslash(s[2..]))
            && (n == 2 && s[1] != '\\' && s[1] != '"' ==>
                  DropBackslash(s) == [s[0]] + ([s[1]] + DropBackslash(s[2..])))
            && (n == 6 ==> DropBackslash(s) == s[..6] + DropBackslash(s[6..]))
  {
    if ItemLength(s) == 6 {
      UnicodeItem(s);
      hide ItemLength, StringText;
      DropSix(s);
    } else if ItemLength(s) == 2 {
      assert s[0] == '\\';
      hide ItemLength, StringText;
      assert s[1..][1..] == s[2..];
    }
  }

  lemma {:induction false} DropSix(s: string)
    requires |s| >= 6 && s[0] == '\\' && s[1] == 'u' && forall i :: 1 <= i < 6 ==> s[i] != '\\'
    ensures DropBackslash(s) == s[..6] + DropBackslash(s[6..])
  {
    var t := s[1..];
    assert t[0] == 'u' && forall i :: 0 <= i < 5 ==> t[i] == s[i + 1];
    assert DropBackslash(s) == [s[0]] + DropBackslash(t);
    hide DropBackslash;
    DropSome(t, 5);
    assert t[5..] == s[6..] && s[..6] == [s[0]] + t[..5];
  }

  lemma {:induction false} DropSome(s: string, n: nat)
    requires n <= |s| && forall i :: 0 <= i < n ==> s[i] != '\\'
    ensures DropBackslash(s) == s[..n] + DropBackslash(s[n..])
  {
    if n == 0 {
      assert s[..0] + DropBackslash(s[0..]) == DropBackslash(s);
    } else {
      DropSome(s[1..], n - 1);
      assert s[1..][n - 1..] == s[n..] && s[..n] == [s[0]] + s[1..][..n - 1];
    }
  }

  lemma {:induction false} ControlsSome(s: string, t: string)
    requires forall i :: 0 <= i < |s| ==> s[i] != '\\'
    ensures Controls(s + t, 6) == s + Controls(t, 6)
  {
    if s == [] {
      assert s + t == t;
    } else {
      ControlsSome(s[1..], t);
      ControlsCons(s[0], s[1..] + t);
      assert s + t == [s[0]] + (s[1..] + t);
    }
  }

  /** What stands first after the dropping. */
  lemma {:induction false} DropHead(s: string)
    requires s != []
    ensures DropBackslash(s) != []
    ensures Place(s[0]) < 6 ==> DropBackslash(s) == [s[0]] + DropBackslash(s[1..])
    ensures Place(s[0]) == 6 ==> Place(DropBackslash(s)[0]) == 6
  {
  }

  /** The letters that make a control character behind a backslash. */
  predicate ControlLetter(c: char) {
    c == 'n' || c == 'r' || c == 't' || c == 'v' || c == 'f' || c == 'b'
  }

  /** What the program makes of the first item of a string. A character stands for itself, an escaped quote
      for a quote, and the letters n, r, t, f and b for control characters. But an escaped slash keeps its
      backslash, \u with four digits stays as it is, and an escaped backslash swallows a plain n, r, t, v, f
      or b behind it and becomes the control character. */
  lemma {:induction false} UnescapeItem(s: string)
    requires s != [] && StringText(s)
    ensures var n := ItemLength(s);
            var rest := s[n..];
            && (n == 1 ==> Unescape(s) == [s[0]] + Unescape(rest))
            && (n == 6 ==> Unescape(s) == s[..6] + Unescape(rest))
            && (n == 2 && s[1] == '"' ==> Unescape(s) == "\"" + Unescape(rest))
            && (n == 2 && s[1] == '/' ==> Unescape(s) == "\\/" + Unescape(rest))
            && (n == 2 && ControlLetter(s[1]) ==> Unescape(s) == [Control(Place(s[1]))] + Unescape(rest))
            && (n == 2 && s[1] == '\\' && (rest == [] || !ControlLetter(rest[0])) ==>
                  Unescape(s) == "\\" + Unescape(rest))
            && (n == 2 && s[1] == '\\' && rest != [] && ControlLetter(rest[0]) ==>
                  Unescape(s) == [Control(Place(rest[0]))] + Unescape(rest[1..]))
  {
    var n := ItemLength(s);
    var rest := s[n..];
    var t := DropBackslash(rest);
    UnescapeTwice(s);
    UnescapeTwice(rest);
    DropItem(s);
    hide Unescape, DropBackslash, Controls, StringText;
    if n == 1 {
      ControlsCons(s[0], t);
    } else if n == 6 {
      UnicodeStays(s, t);
    } else if s[1] == '\\' {
      if rest != [] {
        DropHead(rest);
        if ControlLetter(rest[0]) {
          UnescapeTwice(rest[1..]);
          assert t[1..] == DropBackslash(rest[1..]);
        }
      }
      assert rest == [] ==> t == [] by {
        DropNothing();
      }
      ControlsCons('\\', t);
    } else if s[1] == '"' {
      ControlsCons('"', t);
    } else {
      EscapeStays(s[1], t);
    }
  }

  lemma {:induction false} DropNothing()
    ensures DropBackslash("") == ""
  {
  }

  lemma {:induction false} EscapeStays(c: char, t: string)
    requires c != '\\'
    ensures Controls(['\\'] + ([c] + t), 6) == if Place(c) < 6 then [Control(Place(c))] + Controls(t, 6)
                                               else ['\\', c] + Controls(t, 6)
  {
    ControlsCons('\\', [c] + t);
    ControlsCons(c, t);
    assert ([c] + t)[1..] == t;
    hide Controls;
    assert ['\\'] + ([c] + Controls(t, 6)) == ['\\', c] + Controls(t, 6);
  }

  lemma {:induction false} UnicodeStays(s: string, t: string)
    requires ItemLength(s) == 6
    ensures Controls(s[..6] + t, 6) == s[..6] + Controls(t, 6)
  {
    var five := s[1..6];
    UnicodeItem(s);
    assert five[0] == 'u' && Place('u') == 6 && forall i :: 0 <= i < 5 ==> five[i] == s[i + 1];
    hide ItemLength, Controls, Place;
    ControlsSome(five, t);
    ControlsCons('\\', five + t);
    assert s[..6] == ['\\'] + five;
    assert (['\\'] + five) + t == ['\\'] + (five + t);
    assert (['\\'] + five) + Controls(t, 6) == ['\\'] + (five + Controls(t, 6));
  }

  // ---- against RFC 8259 ----

  /** The characters of a string without \u escapes as RFC 8259 has them. */
  function Decoded(s: string): string
    requires StringText(s)
  {
    if s == [] then []
    else if s[0] != '\\' then [s[0]] + Decoded(s[1..])
    else
      var rest := s[ItemLength(s)..];
      match s[1]
      case 'b' => "\U{08}" + Decoded(rest)
      case 'f' => "\U{0C}" + Decoded(rest)
      case 'n' => "\n" + Decoded(rest)
      case 'r' => "\r" + Decoded(rest)
      case 't' => "\t" + Decoded(rest)
      case _ => [s[1]] + Decoded(rest)
  }

  /** No item is a \u escape. */
  predicate NoUnicode(s: string)
    requires StringText(s)
  {
    s == [] || (ItemLength(s) != 6 && NoUnicode(s[ItemLength(s)..]))
  }

  /** No slash is escaped, and no escaped backslash stands in front of a plain n, r, t, v, f or b. */
  predicate NoTrap(s: string)
    requires StringText(s)
  {
    s == [] ||
    (&& !(|s| >= 2 && s[0] == '\\' && s[1] == '/')
     && !(|s| >= 3 && s[0] == '\\' && s[1] == '\\' && ControlLetter(s[2]))
     && NoTrap(s[ItemLength(s)..]))
  }

  lemma {:induction false} ConsSame(c: char, s: string, d: char, t: string)
    ensures [c] + s == [d] + t <==> c == d && s == t
  {
    assert ([c] + s)[1..] == s && ([d] + t)[1..] == t;
  }

  /** Without \u escapes, a string is read as RFC 8259 has it exactly if no slash is escaped and no escaped
      backslash stands in front of a plain n, r, t, v, f or b. */
  lemma {:induction false} UnescapeStandard(s: string)
    requires StringText(s) && NoUnicode(s)
    ensures Unescape(s) == Decoded(s) <==> NoTrap(s)
  {
    if s == [] {
      assert '\\' !in s;
      UnescapePlain(s);
    } else {
      var rest := s[ItemLength(s)..];
      UnescapeStandard(rest);
      UnescapeItem(s);
      if s[0] != '\\' {
        hide Unescape;
        ConsSame(s[0], Unescape(rest), s[0], Decoded(rest));
      } else {
        EscapeStandard(s, rest);
      }
    }
  }

  lemma {:induction false} EscapeStandard(s: string, rest: string)
    requires StringText(s) && NoUnicode(s) && s != [] && s[0] == '\\' && rest == s[ItemLength(s)..]
    requires Unescape(rest) == Decoded(rest) <==> NoTrap(rest)
    ensures Unescape(s) == Decoded(s) <==> NoTrap(s)
  {
    var c, n := s[1], ItemLength(s);
    assert n == 2 && rest == s[2..] && EscapeChar(c);
    UnescapeItem(s);
    DecodedEscape(s);
    var u, d := Unescape(rest), Decoded(rest);
    assert rest != [] ==> rest[0] == s[2];
    hide Unescape, ItemLength, StringText, NoUnicode, Decoded;
    if c == '/' {
      ConsSame('\\', "/" + u, '/', d);
      assert "\\/" + u == ['\\'] + ("/" + u);
    } else if c == '\\' && rest != [] && ControlLetter(rest[0]) {
      ConsSame(Control(Place(rest[0])), Unescape(rest[1..]), '\\', d);
    } else if ControlLetter(c) {
      ConsSame(Control(Place(c)), u, Control(Place(c)), d);
    } else {
      ConsSame(c, u, c, d);
    }
  }

  lemma {:induction false} DecodedEscape(s: string)
    requires StringText(s) && s != [] && s[0] == '\\' && ItemLength(s) == 2
    ensures Decoded(s) == [if ControlLetter(s[1]) then Control(Place(s[1])) else s[1]] + Decoded(s[2..])
    ensures s[1] != 'v'
  {
    assert EscapeChar(s[1]);
  }

  // ---- which strings can be said ----

  /** No control character but the six with a letter of their own, and no backslash in front of such a letter. */
  ghost predicate Sayable(v: string) {
    && (forall i :: 0 <= i < |v| ==> v[i] >= ' ' || '\U{08}' <= v[i] <= '\U{0D}')
    && (forall i :: 0 <= i < |v| - 1 && v[i] == '\\' ==> !ControlLetter(v[i + 1]))
  }

  lemma {:induction false} SayableJoin(a: string, b: string)
    requires Sayable(a) && Sayable(b)
    requires a != [] && b != [] && a[|a| - 1] == '\\' ==> !ControlLetter(b[0])
    ensures Sayable(a + b)
  {
    hide ControlLetter;
    var v := a + b;
    forall i | 0 <= i < |v| - 1 && v[i] == '\\'
      ensures !ControlLetter(v[i + 1])
    {
      if i + 1 >= |a| {
        assert v[i + 1] == b[i + 1 - |a|];
      }
    }
  }

  lemma {:induction false} SayableOne(c: char)
    requires c >= ' ' || '\U{08}' <= c <= '\U{0D}'
    ensures Sayable([c])
  {
  }

  lemma {:induction false} ControlSayable(c: char)
    requires ControlLetter(c)
    ensures Sayable([Control(Place(c))]) && Control(Place(c)) != '\\'
  {
  }

  /** Of what an item is read as, only an escaped backslash can end in a backslash. */
  lemma {:induction false} SixSayable(s: string)
    requires ItemLength(s) == 6
    ensures Sayable(s[..6]) && s[5] != '\\'
  {
    UnicodeItem(s);
    assert forall i :: 0 <= i < 6 ==> s[i] >= ' ';
    hide ItemLength;
    assert forall i :: 0 <= i < 6 ==> s[..6][i] == s[i];
  }

  lemma {:induction false} UnescapeHead(s: string)
    requires s != [] && StringText(s) && !ControlLetter(s[0])
    ensures Unescape(s) != [] && !ControlLetter(Unescape(s)[0])
  {
    var n := ItemLength(s);
    assert n == 1 || n == 2 || n == 6;
    UnescapeItem(s);
    assert n == 2 ==> s[0] == '\\' && EscapeChar(s[1]);
    assert n == 6 ==> s[..6][0] == '\\';
    hide Unescape, StringText, ItemLength;
  }

  lemma {:induction false} OnlySayable(s: string)
    requires StringText(s)
    ensures Sayable(Unescape(s))
    decreases |s|
  {
    if s == [] {
      assert '\\' !in s;
      UnescapePlain(s);
    } else {
      var n := ItemLength(s);
      var rest := s[n..];
      OnlySayable(rest);
      UnescapeItem(s);
      if n == 1 {
        hide Unescape, Sayable;
        SayableOne(s[0]);
        SayableJoin([s[0]], Unescape(rest));
      } else if n == 6 {
        hide Unescape, Sayable;
        SixSayable(s);
        SayableJoin(s[..6], Unescape(rest));
      } else {
        assert s[0] == '\\' && EscapeChar(s[1]) && n == 2;
        if s[1] == '\\' && rest != [] && ControlLetter(rest[0]) {
          OnlySayable(rest[1..]);
        }
        hide Sayable, Unescape, ItemLength;
        EscapeSayable(s, rest);
      }
    }
  }

  lemma {:induction false} EscapeSayable(s: string, rest: string)
    requires StringText(s) && s != [] && s[0] == '\\' && ItemLength(s) == 2 && rest == s[2..]
    requires StringText(rest) && Sayable(Unescape(rest))
    requires s[1] == '\\' && rest != [] && ControlLetter(rest[0]) ==> Sayable(Unescape(rest[1..]))
    ensures Sayable(Unescape(s))
  {
    assert EscapeChar(s[1]);
    UnescapeItem(s);
    hide Sayable, Unescape, ItemLength, StringText;
    SayableOne('"');
    SayableOne('\\');
    if s[1] == '/' {
      SayableOne('/');
      SayableJoin("\\", "/");
      assert "\\" + "/" == "\\/";
      SayableJoin("\\/", Unescape(rest));
    } else if s[1] == '"' {
      SayableJoin("\"", Unescape(rest));
    } else if ControlLetter(s[1]) {
      ControlSayable(s[1]);
      SayableJoin([Control(Place(s[1]))], Unescape(rest));
    } else if rest != [] && ControlLetter(rest[0]) {
      ControlSayable(rest[0]);
      SayableJoin([Control(Place(rest[0]))], Unescape(rest[1..]));
    } else {
      if rest != [] {
        UnescapeHead(rest);
      }
      SayableJoin("\\", Unescape(rest));
    }
  }

  /** One way to say a character; a vertical tab needs an escaped backslash in front of a v. */
  function Said(c: char): string {
    match c
    case '"' => "\\\""
    case '\\' => "\\\\"
    case '\n' => "\\n"
    case '\r' => "\\r"
    case '\t' => "\\t"
    case '\U{0B}' => "\\\\v"
    case '\U{0C}' => "\\f"
    case '\U{08}' => "\\b"
    case _ => [c]
  }

  function Escaped(v: string): string {
    if v == [] then [] else Said(v[0]) + Escaped(v[1..])
  }

  lemma {:induction false} EscapedSays(v: string)
    requires Sayable(v)
    ensures StringText(Escaped(v)) && Unescape(Escaped(v)) == v
    ensures v != [] ==> Escaped(v) != [] && (Escaped(v)[0] == v[0] || Escaped(v)[0] == '\\')
  {
    if v == [] {
      assert '\\' !in "";
      UnescapePlain("");
    } else {
      var c, rest := v[0], v[1..];
      assert forall i :: 0 <= i < |rest| ==> rest[i] == v[i + 1];
      EscapedSays(rest);
      assert c == '\\' && rest != [] ==> !ControlLetter(rest[0]);
      hide Sayable, Unescape;
      SaidSays(c, Escaped(rest), Said(c) + Escaped(rest));
      assert v == [c] + rest;
    }
  }

  lemma {:induction false} SaidSays(c: char, rest: string, s: string)
    requires StringText(rest) && s == Said(c) + rest && (c >= ' ' || '\U{08}' <= c <= '\U{0D}')
    requires c == '\\' && rest != [] ==> !ControlLetter(rest[0])
    ensures s != [] && (s[0] == c || s[0] == '\\') && StringText(s) && Unescape(s) == [c] + Unescape(rest)
  {
    hide Unescape;
    if c == '\U{0B}' {
      var v := "v" + rest;
      assert v[1..] == rest && StringText(v);
      assert s == "\\\\" + v && s[2..] == v;
      hide Said;
      UnescapeItem(s);
    } else if |Said(c)| == 1 {
      assert s == [c] + rest && s[1..] == rest;
      hide Said;
      UnescapeItem(s);
    } else {
      assert s[2..] == rest && s[0] == '\\' && s[1] == Said(c)[1];
      UnescapeItem(s);
    }
  }

  /** What a string of a text can be read as: exactly the texts without a control character, other than
      backspace, tab, line feed, vertical tab, form feed and carriage return, and without a backslash in
      front of n, r, t, v, f or b. */
  lemma {:induction false} SayableExactly(v: string)
    ensures (exists s :: StringText(s) && Unescape(s) == v) <==> Sayable(v)
  {
    hide Sayable, Unescape, StringText;
    if s :| StringText(s) && Unescape(s) == v {
      OnlySayable(s);
    }
    if Sayable(v) {
      EscapedSays(v);
    }
  }
}
