/** The text of a QR code: its bytes, the length its version is chosen by, and whether the two agree. */
module QrTexts {
  import opened Arithmetic
  import opened Bits
  import opened DataBits
  import opened VersionChoice
  import opened Wrappers

  /** A UTF-16 code unit, as charCodeAt gives it. */
  type Unit = x: nat | x < 0x1_0000

  // ---- the bytes ----

  /** One unit's bytes. The branch for codes above 0x10000 is never taken, since a unit is below. */
  function UnitBytes(code: Unit): seq<Byte> {
    if code > 0x800 then [0xE0 + code / 0x1000, 0x80 + code / 0x40 % 0x40, 0x80 + code % 0x40]
    else if code > 0x80 then [0xC0 + code / 0x40 % 0x20, 0x80 + code % 0x40]
    else [code]
  }

  function TextBytes(text: seq<Unit>): seq<Byte> {
    if text == [] then [] else TextBytes(text[..|text| - 1]) + UnitBytes(text[|text| - 1])
  }

  const BOM: seq<Byte> := [0xEF, 0xBB, 0xBF]

  /** All of them, behind a byte order mark if some unit took more than one. */
  function Parsed(text: seq<Unit>): seq<Byte> {
    (if |TextBytes(text)| != |text| then BOM else []) + TextBytes(text)
  }

  /** The constructor's loop, and the byte order mark in front when some unit took more than one byte. */
  method ParseData(data: seq<Unit>) returns (parsedData: seq<Byte>)
    ensures parsedData == Parsed(data)
    ensures Plain(data) ==> parsedData == data
    ensures !Plain(data) ==> parsedData == [0xEF, 0xBB, 0xBF] + TextBytes(data)
  {
    parsedData := [];
    for i := 0 to |data|
      invariant parsedData == TextBytes(data[..i])
    {
      var byteArray: seq<Byte>;
      var code := data[i];
      if code > 0x800 {
        byteArray := [0xE0 + code / 0x1000, 0x80 + code / 0x40 % 0x40, 0x80 + code % 0x40];
      } else if code > 0x80 {
        byteArray := [0xC0 + code / 0x40 % 0x20, 0x80 + code % 0x40];
      } else {
        byteArray := [code];
      }
      assert data[..i + 1][..i] == data[..i];
      parsedData := parsedData + byteArray;
    }
    assert data[..|data|] == data;
    PlainBytes(data);
    if |parsedData| != |data| {
      parsedData := BOM + parsedData;
    }
  }

  ghost predicate Plain(text: seq<Unit>) {
    forall i :: 0 <= i < |text| ==> text[i] <= 0x80
  }

  lemma {:induction false} PlainLast(text: seq<Unit>)
    requires text != []
    ensures Plain(text) <==> Plain(text[..|text| - 1]) && text[|text| - 1] <= 0x80
  {
    var n := |text| - 1;
    assert forall i :: 0 <= i < n ==> text[..n][i] == text[i];
  }

  lemma {:induction false} PlainBytes(text: seq<Unit>)
    ensures |TextBytes(text)| >= |text| && (|TextBytes(text)| == |text| <==> Plain(text))
    ensures Plain(text) ==> TextBytes(text) == text
  {
    if text != [] {
      var n := |text| - 1;
      assert TextBytes(text) == TextBytes(text[..n]) + UnitBytes(text[n]);
      PlainLast(text);
      hide *;
      PlainBytes(text[..n]);
      OneUnit(text[n]);
      assert text[..n] + [text[n]] == text;
    }
  }

  lemma {:induction false} OneUnit(code: Unit)
    ensures |UnitBytes(code)| == if code <= 0x80 then 1 else if code <= 0x800 then 2 else 3
    ensures code <= 0x80 ==> UnitBytes(code) == [code]
  {
  }

  // ---- against UTF-8 ----

  /** The bytes of a character of the basic plane in UTF-8 (RFC 3629, section 3). */
  predicate Utf8(code: Unit, bytes: seq<nat>) {
    if code < 0x80 then bytes == [code]
    else if code < 0x800 then
      |bytes| == 2 && 0xC0 <= bytes[0] < 0xE0 && 0x80 <= bytes[1] < 0xC0
      && code == (bytes[0] - 0xC0) * 0x40 + (bytes[1] - 0x80)
    else
      |bytes| == 3 && 0xE0 <= bytes[0] < 0xF0 && 0x80 <= bytes[1] < 0xC0 && 0x80 <= bytes[2] < 0xC0
      && code == (bytes[0] - 0xE0) * 0x1000 + (bytes[1] - 0x80) * 0x40 + (bytes[2] - 0x80)
  }

  /** Every character of the basic plane is written as in UTF-8, except U+0080 and U+0800: the limits are
      compared with the wrong sign. */
  lemma {:induction false} Utf8But(code: Unit)
    ensures Utf8(code, UnitBytes(code)) <==> code != 0x80 && code != 0x800
  {
    if code > 0x800 {
      DivMod(code, 0x40);
      DivMod(code / 0x40, 0x40);
      assert code / 0x40 / 0x40 == code / 0x1000;
    }
  }

  // ---- the length the version is chosen by ----

  predicate High(code: Unit) {
    0xD800 <= code < 0xDC00
  }

  predicate Low(code: Unit) {
    0xDC00 <= code < 0xE000
  }

  /** How many bytes encodeURI escapes or keeps: those of UTF-8, a surrogate pair being one character of
      four; it throws on a surrogate without a partner. */
  function UriLength(text: seq<Unit>): Result<nat> {
    if text == [] then Ok(0)
    else
      var pair := High(text[0]) && |text| >= 2 && Low(text[1]);
      if !pair && (High(text[0]) || Low(text[0])) then Throws
      else
        var rest := UriLength(text[if pair then 2 else 1..]);
        if rest.Throws? then Throws
        else Ok(rest.value + if pair then 4 else if text[0] < 0x80 then 1 else if text[0] < 0x800 then 2 else 3)
  }

  /** Three more, unless the text, taken as a number, is that length: the length is compared with the text
      itself. Whether it is depends on the conversion of the text, which is a parameter. */
  function LookupLength(text: seq<Unit>, isItsLength: bool): Result<nat> {
    match UriLength(text)
    case Throws => Throws
    case Ok(n) => Ok(n + if isItsLength then 0 else 3)
  }

  ghost predicate NoSurrogate(text: seq<Unit>) {
    forall i :: 0 <= i < |text| ==> !High(text[i]) && !Low(text[i])
  }

  lemma {:induction false} BytesCons(text: seq<Unit>)
    requires text != []
    ensures TextBytes(text) == UnitBytes(text[0]) + TextBytes(text[1..])
    decreases |text|
  {
    hide UnitBytes;
    var n := |text| - 1;
    if n > 0 {
      BytesCons(text[..n]);
      assert text[..n][1..] == text[1..][..n - 1];
    } else {
      assert text[..0] == [] && text[1..] == [];
    }
  }

  /** Without surrogates, no text has more bytes than it is looked up with. */
  lemma {:induction false} BytesWithin(text: seq<Unit>)
    requires NoSurrogate(text)
    ensures UriLength(text).Ok? && |TextBytes(text)| <= UriLength(text).value
    decreases |text|
  {
    if text != [] {
      assert forall i :: 0 <= i < |text| - 1 ==> text[1..][i] == text[i + 1];
      BytesWithin(text[1..]);
      BytesCons(text);
      OneUnit(text[0]);
      hide UnitBytes, TextBytes;
    }
  }

  /** A text fits the version chosen for it exactly if its bytes, with the byte order mark, are no more than
      the list says, or than 129 in version 15 at level H. Without surrogates, and unless the text is its own
      length as a number, that only fails for the 129. */
  lemma {:induction false} TextHeld(text: seq<Unit>, isItsLength: bool, level: int, version: int, length: nat)
    requires level in {0, 1, 2, 3} && LookupLength(text, isItsLength) == Ok(length)
    requires Chosen(version, length, level)
    ensures Holds(version, level, Parsed(text)) <==>
            |Parsed(text)| <= if level == 2 && version == 15 then 129 else Limit(version, level)
    ensures NoSurrogate(text) && !isItsLength ==> |Parsed(text)| <= Limit(version, level)
  {
    if NoSurrogate(text) {
      BytesWithin(text);
    }
    hide UriLength, TextBytes, Limit, ListBits;
    ListedIsHeld(version, level, Parsed(text));
  }

  /** But one character outside the basic plane, such as U+1F600, is counted as four bytes and written as six:
      at level H it is sent to version 1, which does not hold it. */
  lemma {:induction false} PairNotHeld(high: Unit, low: Unit, version: int)
    requires High(high) && Low(low)
    requires Chosen(version, 7, 2)
    ensures LookupLength([high, low], false) == Ok(7)
    ensures version == 1 && |Parsed([high, low])| == 9 && !Holds(version, 2, Parsed([high, low]))
  {
    var text := [high, low];
    assert text[2..] == [] && text[..1] == [high] && text[..1][..0] == [];
    assert UriLength(text) == Ok(4);
    OneUnit(high);
    OneUnit(low);
    assert |TextBytes(text[..1])| == 3;
    assert |TextBytes(text)| == 6;
    assert Limit(1, 2) == 7;
    hide UriLength, TextBytes, Limit, ListBits;
    ListedIsHeld(version, 2, Parsed(text));
  }
}
