/** Regular expressions with JavaScript's backtracking order, as far as the JSON lexer needs them.
    Matches lists the ends of all matches in the order they are tried; `match` takes the first. */
module Regex {

  datatype CharSet =
    | One(c: char)
    | Space
    | Decimal
    | NonZero
    | ExponentMark
    | Sign
    | EscapeLetter
    | Hex
    | Plain
    | AnyButNewline

  predicate In(k: CharSet, c: char) {
    match k
    case One(d) => c == d
    case Space => IsSpace(c)
    case Decimal => '0' <= c <= '9'
    case NonZero => '1' <= c <= '9'
    case ExponentMark => c == 'e' || c == 'E'
    case Sign => c == '-' || c == '+'
    case EscapeLetter => c in "\\\"bfnrt/"
    case Hex => '0' <= c <= '9' || 'a' <= c <= 'f' || 'A' <= c <= 'F'
    case Plain => c != '\\' && c != '"' && c > '\U{1F}'
    case AnyButNewline => c != '\n' && c != '\r' && c != '\U{2028}' && c != '\U{2029}'
  }

  /** \s */
  predicate IsSpace(c: char) {
    || '\U{09}' <= c <= '\U{0D}' || c == ' ' || c == '\U{A0}' || c == '\U{1680}'
    || '\U{2000}' <= c <= '\U{200A}' || c == '\U{2028}' || c == '\U{2029}' || c == '\U{202F}'
    || c == '\U{205F}' || c == '\U{3000}' || c == '\U{FEFF}'
  }

  /** \w */
  predicate IsWord(c: char) {
    '0' <= c <= '9' || 'a' <= c <= 'z' || 'A' <= c <= 'Z' || c == '_'
  }

  datatype Regex =
    | Chars(k: CharSet)
    | Seq(first: Regex, second: Regex)
    | Alt(left: Regex, right: Regex)
    | Opt(body: Regex)
    | Star(body: Regex)
    | Boundary
    | End

  predicate WordAt(s: string, i: int) {
    0 <= i < |s| && IsWord(s[i])
  }

  /** The ends of the matches of r that start at i, in the order they are tried. */
  function Matches(r: Regex, s: string, i: nat): (m: seq<nat>)
    requires i <= |s|
    ensures forall k :: 0 <= k < |m| ==> i <= m[k] <= |s|
    decreases r, |s| - i, 0, 0
  {
    match r
    case Chars(k) => if i < |s| && In(k, s[i]) then [i + 1] else []
    case Seq(a, b) => FromEach(b, s, Matches(a, s, i), i)
    case Alt(a, b) => Matches(a, s, i) + Matches(b, s, i)
    case Opt(a) => Matches(a, s, i) + [i]
    case Star(a) => (if i < |s| then FromEach(r, s, Beyond(Matches(a, s, i), i, |s|), i + 1) else []) + [i]
    case Boundary => if WordAt(s, i - 1) != WordAt(s, i) then [i] else []
    case End => if i == |s| then [i] else []
  }

  /** An iteration of a star must not be empty. */
  function Beyond(m: seq<nat>, i: nat, n: nat): (b: seq<nat>)
    requires forall k :: 0 <= k < |m| ==> i <= m[k] <= n
    ensures forall k :: 0 <= k < |b| ==> i + 1 <= b[k] <= n
  {
    if m == [] then [] else (if m[0] > i then [m[0]] else []) + Beyond(m[1..], i, n)
  }

  /** All matches of r from the given starts, one start after the other. */
  function FromEach(r: Regex, s: string, starts: seq<nat>, low: nat): (m: seq<nat>)
    requires low <= |s| && forall k :: 0 <= k < |starts| ==> low <= starts[k] <= |s|
    ensures forall k :: 0 <= k < |m| ==> low <= m[k] <= |s|
    decreases r, |s| - low, 1, |starts|
  {
    if starts == [] then [] else Matches(r, s, starts[0]) + FromEach(r, s, starts[1..], low)
  }

  /** The first match of r at the start of s, if there is one, ends at position n. */
  ghost predicate MatchesUpTo(r: Regex, s: string, i: nat, n: nat)
    requires i <= |s|
  {
    var m := Matches(r, s, i);
    m != [] && m[0] == n
  }

  ghost predicate Fails(r: Regex, s: string, i: nat)
    requires i <= |s|
  {
    Matches(r, s, i) == []
  }

  // ---- how the first match is found ----

  lemma {:induction false} FromEachFirst(r: Regex, s: string, starts: seq<nat>, low: nat, n: nat)
    requires low <= |s| && forall k :: 0 <= k < |starts| ==> low <= starts[k] <= |s|
    requires starts != [] && MatchesUpTo(r, s, starts[0], n)
    ensures FromEach(r, s, starts, low) != [] && FromEach(r, s, starts, low)[0] == n
  {
    hide Matches;
  }

  lemma {:induction false} SeqFirst(a: Regex, b: Regex, s: string, i: nat, j: nat, n: nat)
    requires i <= |s| && MatchesUpTo(a, s, i, j) && j <= |s| && MatchesUpTo(b, s, j, n)
    ensures MatchesUpTo(Seq(a, b), s, i, n)
  {
    FromEachFirst(b, s, Matches(a, s, i), i, n);
  }

  lemma {:induction false} SeqFails(a: Regex, b: Regex, s: string, i: nat)
    requires i <= |s| && Fails(a, s, i)
    ensures Fails(Seq(a, b), s, i)
  {
  }

  lemma {:induction false} AltUnfold(a: Regex, b: Regex, s: string, i: nat)
    requires i <= |s|
    ensures Matches(Alt(a, b), s, i) == Matches(a, s, i) + Matches(b, s, i)
  {
  }

  lemma {:induction false} CharsUnfold(k: CharSet, s: string, i: nat)
    requires i <= |s|
    ensures Matches(Chars(k), s, i) == if i < |s| && In(k, s[i]) then [i + 1] else []
  {
  }

  lemma {:induction false} StarUnfold(a: Regex, s: string, i: nat)
    requires i <= |s|
    ensures Matches(Star(a), s, i) ==
            (if i < |s| then FromEach(Star(a), s, Beyond(Matches(a, s, i), i, |s|), i + 1) else []) + [i]
  {
    hide FromEach, Beyond;
  }

  /** A starred set takes everything it can first. */
  lemma {:induction false} StarFirst(a: Regex, s: string, i: nat, n: nat)
    requires i <= n <= |s|
    requires forall j :: i <= j < n ==> Matches(a, s, j) == [j + 1]
    requires Matches(a, s, n) == []
    ensures MatchesUpTo(Star(a), s, i, n)
    decreases n - i
  {
    hide Matches;
    StarUnfold(a, s, i);
    assert Beyond([], i, |s|) == [];
    if i < n {
      StarFirst(a, s, i + 1, n);
      assert Beyond([i + 1], i, |s|) == [i + 1];
      hide Beyond, FromEach;
      FromEachFirst(Star(a), s, [i + 1], i + 1, n);
    }
  }

  lemma {:induction false} FromEachConcat(r: Regex, s: string, a: seq<nat>, b: seq<nat>, low: nat)
    requires low <= |s|
    requires forall k :: 0 <= k < |a| ==> low <= a[k] <= |s|
    requires forall k :: 0 <= k < |b| ==> low <= b[k] <= |s|
    ensures forall k :: 0 <= k < |a + b| ==> low <= (a + b)[k] <= |s|
    ensures FromEach(r, s, a + b, low) == FromEach(r, s, a, low) + FromEach(r, s, b, low)
    decreases |a|
  {
    hide Matches;
    if a == [] {
      assert a + b == b;
    } else {
      FromEachConcat(r, s, a[1..], b, low);
      assert (a + b)[1..] == a[1..] + b;
    }
  }

  lemma {:induction false} FromOne(r: Regex, s: string, i: nat, low: nat)
    requires low <= i <= |s|
    ensures FromEach(r, s, [i], low) == Matches(r, s, i)
  {
    hide Matches;
    assert FromEach(r, s, [], low) == [];
  }

  lemma {:induction false} SeqUnfold(a: Regex, b: Regex, s: string, i: nat)
    requires i <= |s|
    ensures Matches(Seq(a, b), s, i) == FromEach(b, s, Matches(a, s, i), i)
  {
  }

  lemma {:induction false} OptUnfold(a: Regex, s: string, i: nat)
    requires i <= |s|
    ensures Matches(Opt(a), s, i) == Matches(a, s, i) + [i]
  {
  }

  /** Where an optional part cannot start, it is skipped. */
  lemma {:induction false} OptSkips(a: Regex, b: Regex, s: string, i: nat)
    requires i <= |s| && Fails(a, s, i)
    ensures Matches(Seq(Opt(a), b), s, i) == Matches(b, s, i)
  {
    OptUnfold(a, s, i);
    SeqUnfold(Opt(a), b, s, i);
    assert [] + [i] == [i];
    hide Matches;
    FromOne(b, s, i, i);
  }

  /** A start that leads nowhere is given up for the next. */
  lemma {:induction false} FromEachSecond(r: Regex, s: string, i: nat, starts: seq<nat>, low: nat, n: nat)
    requires low <= i <= |s| && forall k :: 0 <= k < |starts| ==> low <= starts[k] <= |s|
    requires Fails(r, s, i) && starts != [] && MatchesUpTo(r, s, starts[0], n)
    ensures FromEach(r, s, [i] + starts, low) != [] && FromEach(r, s, [i] + starts, low)[0] == n
  {
    assert ([i] + starts)[1..] == starts;
    hide Matches;
    FromEachFirst(r, s, starts, low, n);
  }
}
