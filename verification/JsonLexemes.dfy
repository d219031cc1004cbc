/** The lexical grammar of JSON in literal characters, independent of the lexer's rules: strings, numbers
    and names as in RFC 8259, sections 3, 6 and 7; white space as in ECMAScript, where RFC 8259, section 2,
    allows four characters only. */
module JsonLexemes {
  import opened JsonValues
  import opened JsonParser

  // ---- white space ----

  /** Tab, line feed, vertical tab, form feed, carriage return, the spaces of Unicode, the line and the
      paragraph separator, and the byte order mark. */
  predicate Blank(c: char) {
    c in "\U{09}\U{0A}\U{0B}\U{0C}\U{0D} \U{A0}\U{1680}\U{2028}\U{2029}\U{202F}\U{205F}\U{3000}\U{FEFF}"
    || c in "\U{2000}\U{2001}\U{2002}\U{2003}\U{2004}\U{2005}\U{2006}\U{2007}\U{2008}\U{2009}\U{200A}"
  }

  ghost predicate Gap(w: string) {
    forall i :: 0 <= i < |w| ==> Blank(w[i])
  }

  // ---- numbers ----

  ghost predicate AllDigits(s: string) {
    s != [] && forall i :: 0 <= i < |s| ==> Digit(s[i])
  }

  /** One digit, or several that do not start with a zero. */
  ghost predicate WholePart(s: string) {
    AllDigits(s) && (|s| > 1 ==> s[0] != '0')
  }

  ghost predicate FractionPart(s: string) {
    s == [] || (s[0] == '.' && AllDigits(s[1..]))
  }

  ghost predicate ExponentPart(s: string) {
    || s == []
    || (s[0] in "eE" && AllDigits(s[1..]))
    || (|s| >= 2 && s[0] in "eE" && s[1] in "+-" && AllDigits(s[2..]))
  }

  ghost predicate NumberParts(s: string, sign: string, whole: string, fraction: string, exponent: string) {
    && s == sign + whole + fraction + exponent
    && (sign == "" || sign == "-") && WholePart(whole) && FractionPart(fraction) && ExponentPart(exponent)
  }

  ghost predicate NumberText(s: string) {
    exists sign, whole, fraction, exponent :: NumberParts(s, sign, whole, fraction, exponent)
  }

  // ---- strings ----

  predicate HexDigit(c: char) {
    '0' <= c <= '9' || 'a' <= c <= 'f' || 'A' <= c <= 'F'
  }

  predicate EscapeChar(c: char) {
    c == '"' || c == '\\' || c == '/' || c == 'b' || c == 'f' || c == 'n' || c == 'r' || c == 't'
  }

  /** The length of the item a string starts with, an escape or a single character; zero if there is none. */
  function ItemLength(s: string): (n: nat)
    ensures n <= |s|
  {
    if s == [] || s[0] < ' ' || s[0] == '"' then 0
    else if s[0] != '\\' then 1
    else if |s| >= 2 && EscapeChar(s[1]) then 2
    else if |s| >= 6 && s[1] == 'u' && HexDigit(s[2]) && HexDigit(s[3]) && HexDigit(s[4]) && HexDigit(s[5]) then 6
    else 0
  }

  /** What may stand between the quotes of a string. */
  predicate StringText(s: string) {
    s == [] || (ItemLength(s) > 0 && StringText(s[ItemLength(s)..]))
  }

  // ---- tokens ----

  function Spelling(t: Token): string {
    match t
    case StringToken(s) => "\"" + s + "\""
    case NumberToken(s) => s
    case InvalidToken(s) => s
    case Fixed(x) =>
      match x
      case NULL => "null"
      case TRUE => "true"
      case FALSE => "false"
      case LBRACE => "{"
      case RBRACE => "}"
      case LBRACKET => "["
      case RBRACKET => "]"
      case COLON => ":"
      case COMMA => ","
      case _ => ""
  }

  /** The tokens a JSON text is made of. */
  ghost predicate Lexical(t: Token) {
    match t
    case StringToken(s) => StringText(s)
    case NumberToken(s) => NumberText(s)
    case InvalidToken(_) => false
    case Fixed(x) => x != EOF && x != END
  }

  /** Tokens that end in a letter or a digit. */
  predicate Wordy(t: Token) {
    t.NumberToken? || t == Fixed(NULL) || t == Fixed(TRUE) || t == Fixed(FALSE)
  }

  /** Tokens that start with one. */
  predicate StartsWord(t: Token) {
    Wordy(t) && (t.NumberToken? && t.text != [] ==> t.text[0] != '-')
  }

  /** Words that would run together have white space between them. */
  ghost predicate Apart(ts: seq<Token>, ws: seq<string>)
    requires |ws| == |ts| + 1
  {
    forall i :: 0 <= i < |ts| - 1 && Wordy(ts[i]) && StartsWord(ts[i + 1]) ==> ws[i + 1] != []
  }

  /** The tokens, with the given white space before, between and after them. */
  function Render(ts: seq<Token>, ws: seq<string>): string
    requires |ws| == |ts| + 1
  {
    if ts == [] then ws[0] else ws[0] + Spelling(ts[0]) + Render(ts[1..], ws[1..])
  }

  /** The text is these tokens with this white space around them. */
  ghost predicate Spelled(text: string, ts: seq<Token>, ws: seq<string>) {
    && |ws| == |ts| + 1 && text == Render(ts, ws)
    && (forall i :: 0 <= i < |ts| ==> Lexical(ts[i])) && (forall i :: 0 <= i < |ws| ==> Gap(ws[i]))
    && Apart(ts, ws)
  }
}
