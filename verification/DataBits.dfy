/** The data bit stream of a QR code (ISO/IEC 18004:2015, section 7.4): segments, terminator and
    padding, together with the reader that takes it apart again. */
module DataBits {
  import opened Bits
  import opened BitBuffer
  import opened Wrappers

  /** One entry of the data list: a mode indicator and its bytes. */
  datatype Segment = Segment(mode: Byte, data: seq<Byte>)

  const PAD0: Byte := 0xEC
  const PAD1: Byte := 0x11

  /** The width of the length field; it throws on an unknown mode or a version above 40. */
  function GetLengthInBits(mode: Byte, version: int): (r: Result<nat>)
    ensures r.Ok? <==> mode in {1, 2, 4, 8} && version <= 40
    ensures r.Ok? ==> 8 <= r.value <= 16
  {
    if 1 <= version < 10 then
      match mode
      case 1 => Ok(10)
      case 2 => Ok(9)
      case 4 => Ok(8)
      case 8 => Ok(8)
      case _ => Throws
    else if version < 27 then
      match mode
      case 1 => Ok(12)
      case 2 => Ok(11)
      case 4 => Ok(16)
      case 8 => Ok(10)
      case _ => Throws
    else if version < 41 then
      match mode
      case 1 => Ok(14)
      case 2 => Ok(13)
      case 4 => Ok(16)
      case 8 => Ok(12)
      case _ => Throws
    else Throws
  }

  ghost predicate Writable(version: int, list: seq<Segment>) {
    forall i :: 0 <= i < |list| ==> GetLengthInBits(list[i].mode, version).Ok?
  }

  function BytesBits(data: seq<Byte>): (b: seq<bool>)
    ensures |b| == 8 * |data|
  {
    if data == [] then [] else BytesBits(data[..|data| - 1]) + BitsOf(data[|data| - 1], 8)
  }

  function SegmentBits(s: Segment, width: nat): seq<bool> {
    BitsOf(s.mode, 4) + BitsOf(|s.data|, width) + BytesBits(s.data)
  }

  function ListBits(version: int, list: seq<Segment>): seq<bool>
    requires Writable(version, list)
  {
    if list == [] then []
    else SegmentBits(list[0], GetLengthInBits(list[0].mode, version).value) + ListBits(version, list[1..])
  }

  function Clear(n: nat): (b: seq<bool>)
    ensures |b| == n && forall i :: 0 <= i < n ==> !b[i]
  {
    seq(n, i => false)
  }

  /** The terminator, when there is room for all of it, then zeros up to a whole byte. */
  function Terminated(bits: seq<bool>, capacity: nat): seq<bool> {
    var t := if |bits| + 4 <= capacity then bits + Clear(4) else bits;
    t + Clear(if |t| % 8 == 0 then 0 else 8 - |t| % 8)
  }

  /** Alternating pad bytes up to the capacity. */
  function PadBytes(bits: seq<bool>, capacity: nat, pad: Byte): seq<bool>
    decreases capacity - |bits|
  {
    if |bits| >= capacity then bits
    else PadBytes(bits + BitsOf(pad, 8), capacity, if pad == PAD0 then PAD1 else PAD0)
  }

  function Padded(bits: seq<bool>, capacity: nat): seq<bool> {
    PadBytes(Terminated(bits, capacity), capacity, PAD0)
  }

  // ---- the padded stream fills the symbol exactly ----

  lemma {:induction false} PadBytesShape(bits: seq<bool>, capacity: nat, pad: Byte)
    requires |bits| <= capacity && |bits| % 8 == 0 && capacity % 8 == 0
    ensures |PadBytes(bits, capacity, pad)| == capacity
    ensures bits <= PadBytes(bits, capacity, pad)
    decreases capacity - |bits|
  {
    if |bits| < capacity {
      var longer, next := bits + BitsOf(pad, 8), if pad == PAD0 then PAD1 else PAD0;
      assert PadBytes(bits, capacity, pad) == PadBytes(longer, capacity, next);
      hide PadBytes, BitsOf;
      assert |longer| == |bits| + 8 && |longer| <= capacity;
      PadBytesShape(longer, capacity, next);
      assert bits <= longer;
    }
  }

  /** Whatever fits is padded to exactly the capacity, behind the data and at most four clear
      bits. */
  lemma {:induction false} PaddedShape(bits: seq<bool>, capacity: nat)
    requires |bits| <= capacity && capacity % 8 == 0
    ensures |Padded(bits, capacity)| == capacity
    ensures bits <= Padded(bits, capacity)
    ensures |bits| + 4 <= capacity ==> bits + Clear(4) <= Padded(bits, capacity)
  {
    var t := Terminated(bits, capacity);
    assert bits <= t;
    assert |bits| + 4 <= capacity ==> bits + Clear(4) <= t;
    PadBytesShape(t, capacity, PAD0);
  }

  /** The pad bytes alternate, beginning with the given one. */
  lemma {:induction false} PadBytesAt(bits: seq<bool>, capacity: nat, pad: Byte, k: nat)
    requires |bits| % 8 == 0 && capacity % 8 == 0 && |bits| + 8 * k + 8 <= capacity && pad in {PAD0, PAD1}
    ensures |PadBytes(bits, capacity, pad)| == capacity
    ensures PadBytes(bits, capacity, pad)[|bits| + 8 * k..|bits| + 8 * k + 8] ==
            BitsOf(if (k % 2 == 0) == (pad == PAD0) then 0xEC else 0x11, 8)
    decreases k
  {
    var longer, next := bits + BitsOf(pad, 8), if pad == PAD0 then PAD1 else PAD0;
    PadBytesShape(longer, capacity, next);
    var all := PadBytes(longer, capacity, next);
    assert PadBytes(bits, capacity, pad) == all;
    hide BitsOf, PadBytes;
    if k == 0 {
      assert all[|bits|..|bits| + 8] == longer[|bits|..] == BitsOf(pad, 8);
    } else {
      PadBytesAt(longer, capacity, next, k - 1);
    }
  }

  /** Behind the data and the terminator come zeros up to a whole byte, and then 0xEC and 0x11 in
      turn (ISO/IEC 18004:2015, section 7.4.10). */
  lemma {:induction false} PaddedPattern(bits: seq<bool>, capacity: nat, k: nat)
    requires |bits| <= capacity && capacity % 8 == 0
    ensures var end := if |bits| + 4 <= capacity then |bits| + 4 else |bits|;
            var from := (end + 7) / 8 * 8;
            && |Padded(bits, capacity)| == capacity && from <= capacity
            && (forall i :: |bits| <= i < from ==> !Padded(bits, capacity)[i])
            && (from + 8 * k + 8 <= capacity ==>
                 Padded(bits, capacity)[from + 8 * k..from + 8 * k + 8] == BitsOf(if k % 2 == 0 then 0xEC else 0x11, 8))
  {
    var t := Terminated(bits, capacity);
    assert |t| == (if |bits| + 4 <= capacity then |bits| + 11 else |bits| + 7) / 8 * 8;
    PadBytesShape(t, capacity, PAD0);
    assert forall i :: 0 <= i < |t| ==> Padded(bits, capacity)[i] == t[i];
    if |t| + 8 * k + 8 <= capacity {
      hide BitsOf, PadBytes;
      PadBytesAt(t, capacity, PAD0, k);
    }
  }

  // ---- the reader ----

  function ReadBytes(bits: seq<bool>, n: nat): (data: seq<nat>)
    requires 8 * n <= |bits|
    ensures |data| == n
  {
    seq(n, i requires 0 <= i < n => NumberOf(bits[8 * i..8 * i + 8]))
  }

  datatype Reading = Reading(mode: nat, data: seq<nat>)

  /** Reads segments until the terminator, or until fewer than four bits are left. */
  function ReadSegments(bits: seq<bool>, version: int): seq<Reading>
    decreases |bits|
  {
    if |bits| < 4 then []
    else
      var mode := NumberOf(bits[..4]);
      if mode == 0 || mode >= 256 || GetLengthInBits(mode, version).Throws? then []
      else
        var width := GetLengthInBits(mode, version).value;
        if |bits| < 4 + width then []
        else
          var count := NumberOf(bits[4..4 + width]);
          var body := bits[4 + width..];
          if |body| < 8 * count then []
          else [Reading(mode, ReadBytes(body, count))] + ReadSegments(body[8 * count..], version)
  }

  ghost function AsReadings(list: seq<Segment>): (r: seq<Reading>)
    ensures |r| == |list|
  {
    seq(|list|, i requires 0 <= i < |list| => Reading(list[i].mode, list[i].data))
  }

  /** Every segment's length fits its length field. */
  ghost predicate LengthsFit(version: int, list: seq<Segment>)
    requires Writable(version, list)
  {
    forall i :: 0 <= i < |list| ==> |list[i].data| < Pow2(GetLengthInBits(list[i].mode, version).value)
  }

  lemma {:induction false} BytesBitsAt(data: seq<Byte>, i: nat)
    requires i < |data|
    ensures BytesBits(data)[8 * i..8 * i + 8] == BitsOf(data[i], 8)
  {
    var front := data[..|data| - 1];
    if i < |front| {
      BytesBitsAt(front, i);
      assert BytesBits(data)[8 * i..8 * i + 8] == BytesBits(front)[8 * i..8 * i + 8];
    }
  }

  lemma {:induction false} ReadBytesBack(data: seq<Byte>, tail: seq<bool>)
    ensures ReadBytes(BytesBits(data) + tail, |data|) == data
  {
    var bits := BytesBits(data) + tail;
    forall i | 0 <= i < |data|
      ensures ReadBytes(bits, |data|)[i] == data[i]
    {
      BytesBitsAt(data, i);
      assert bits[8 * i..8 * i + 8] == BytesBits(data)[8 * i..8 * i + 8];
      assert Pow2(8) == 256;
      NumberFits(data[i], 8);
    }
  }

  /** One unfolding of the reader. */
  lemma {:induction false} ReadStep(bits: seq<bool>, version: int, mode: Byte, width: nat, count: nat, body: seq<bool>)
    requires |bits| >= 4 + width && body == bits[4 + width..]
    requires NumberOf(bits[..4]) == mode && GetLengthInBits(mode, version) == Ok(width)
    requires NumberOf(bits[4..4 + width]) == count
    ensures ReadSegments(bits, version) ==
            if |body| < 8 * count then []
            else [Reading(mode, ReadBytes(body, count))] + ReadSegments(body[8 * count..], version)
  {
    hide NumberOf, ReadBytes;
  }

  /** What the reader makes of a first segment: itself, if its length fits, or else something
      with less data. */
  lemma {:induction false} ReadFirst(version: int, s: Segment, width: nat, tail: seq<bool>)
    requires GetLengthInBits(s.mode, version) == Ok(width)
    ensures |s.data| < Pow2(width) ==>
        ReadSegments(SegmentBits(s, width) + tail, version) ==
        [Reading(s.mode, s.data)] + ReadSegments(tail, version)
    ensures |s.data| >= Pow2(width) ==>
        var r := ReadSegments(SegmentBits(s, width) + tail, version);
        r == [] || |r[0].data| < Pow2(width)
  {
    var bits := SegmentBits(s, width) + tail;
    var body := BytesBits(s.data) + tail;
    assert bits[..4] == BitsOf(s.mode, 4);
    assert bits[4..4 + width] == BitsOf(|s.data|, width);
    assert bits[4 + width..] == body;
    assert body[8 * |s.data|..] == tail;
    assert s.mode < Pow2(4) == 16;
    hide *;
    NumberFits(s.mode, 4);
    NumberFits(|s.data|, width);
    NumberOfBits(|s.data|, width);
    ReadBytesBack(s.data, tail);
    ReadStep(bits, version, s.mode, width, NumberOf(BitsOf(|s.data|, width)), body);
  }

  lemma {:induction false} SegmentHead(s: Segment, width: nat)
    ensures |SegmentBits(s, width)| == 4 + width + 8 * |s.data|
    ensures SegmentBits(s, width)[..4] == BitsOf(s.mode, 4)
    ensures SegmentBits(s, width)[4..4 + width] == BitsOf(|s.data|, width)
    ensures SegmentBits(s, width)[4 + width..] == BytesBits(s.data)
  {
    hide BitsOf, BytesBits;
  }

  lemma {:induction false} DropThenSlice(bits: seq<bool>, from: nat, i: nat, j: nat)
    requires from <= |bits| && i <= j <= |bits[from..]|
    ensures bits[from..][i..j] == bits[from + i..from + j]
  {
  }

  lemma {:induction false} ByteSlice(s: Segment, width: nat, j: nat)
    requires j < |s.data|
    ensures 4 + width + 8 * j + 8 <= |SegmentBits(s, width)|
    ensures SegmentBits(s, width)[4 + width + 8 * j..4 + width + 8 * j + 8] == BitsOf(s.data[j], 8)
  {
    SegmentHead(s, width);
    BytesBitsAt(s.data, j);
    hide *;
    DropThenSlice(SegmentBits(s, width), 4 + width, 8 * j, 8 * j + 8);
  }

  lemma {:induction false} SmallNumber(num: nat, length: nat, p: nat)
    requires 0 < length && Pow2(length) == p
    ensures NumberOf(BitsOf(num, length)) == num % p
  {
    hide *;
    BitsOfNumber(num, length, 0);
  }

  /** A segment in the stream: its mode in four bits, its length in the field for it, if it fits, and its
      bytes. */
  lemma {:induction false} SegmentLayout(s: Segment, width: nat, j: nat)
    requires j < |s.data|
    ensures |SegmentBits(s, width)| == 4 + width + 8 * |s.data|
    ensures NumberOf(SegmentBits(s, width)[..4]) == s.mode % 16
    ensures NumberOf(SegmentBits(s, width)[4..4 + width]) == |s.data| <==> |s.data| < Pow2(width)
    ensures NumberOf(SegmentBits(s, width)[4 + width + 8 * j..4 + width + 8 * j + 8]) == s.data[j]
  {
    assert Pow2(4) == 16 && Pow2(8) == 256;
    hide *;
    SegmentHead(s, width);
    ByteSlice(s, width, j);
    SmallNumber(s.mode, 4, 16);
    NumberFits(|s.data|, width);
    SmallNumber(s.data[j], 8, 256);
  }

  /** How far the length field of a byte segment counts: 8 bits up to version 9, 16 bits beyond. */
  function ByteLimit(version: int): nat {
    if 1 <= version < 10 then 256 else 65536
  }

  /** The only kind of segment the program makes. */
  predicate Bytes(list: seq<Segment>) {
    forall i :: 0 <= i < |list| ==> list[i].mode == 4
  }

  /** A list of byte segments that fits a symbol with less data than its length fields can count has no
      segment too long for its length field: such a list is always turned down for its size first. */
  lemma {:induction false} BytesFit(version: int, list: seq<Segment>, total: nat)
    requires Writable(version, list) && Bytes(list)
    requires |ListBits(version, list)| <= 8 * total && total < ByteLimit(version)
    ensures LengthsFit(version, list)
  {
    if list != [] {
      var width := GetLengthInBits(list[0].mode, version).value;
      assert Pow2(width) == ByteLimit(version) by {
        ByteWidths();
      }
      LengthsFitCons(version, list);
      assert forall i :: 0 <= i < |list| - 1 ==> list[1..][i] == list[i + 1];
      hide GetLengthInBits, Pow2;
      BytesFit(version, list[1..], total);
    }
  }

  lemma {:induction false} ByteWidths()
    ensures Pow2(8) == 256 && Pow2(16) == 65536
  {
    assert Pow2(4) == 16 && Pow2(12) == 4096;
  }

  lemma {:induction false} LengthsFitCons(version: int, list: seq<Segment>)
    requires Writable(version, list) && list != []
    ensures Writable(version, list[1..])
    ensures LengthsFit(version, list) <==>
            |list[0].data| < Pow2(GetLengthInBits(list[0].mode, version).value) && LengthsFit(version, list[1..])
  {
    assert forall i :: 0 <= i < |list| - 1 ==> list[1..][i] == list[i + 1];
    hide GetLengthInBits, Pow2;
    if LengthsFit(version, list[1..]) && |list[0].data| < Pow2(GetLengthInBits(list[0].mode, version).value) {
      forall i | 0 <= i < |list|
        ensures |list[i].data| < Pow2(GetLengthInBits(list[i].mode, version).value)
      {
        if i > 0 {
          assert list[i] == list[1..][i - 1];
        }
      }
    }
  }

  lemma {:induction false} AsReadingsCons(list: seq<Segment>)
    requires list != []
    ensures AsReadings(list) == [Reading(list[0].mode, list[0].data)] + AsReadings(list[1..])
  {
  }

  /** Reading back what was written, behind any tail that starts with the terminator or is too
      short for a mode indicator. */
  lemma {:induction false} ReadListBack(version: int, list: seq<Segment>, tail: seq<bool>)
    requires Writable(version, list)
    requires |tail| < 4 || tail[..4] == Clear(4)
    ensures ReadSegments(ListBits(version, list) + tail, version) == AsReadings(list) <==>
            LengthsFit(version, list)
  {
    if list == [] {
      assert ListBits(version, list) + tail == tail;
      ReadNothing(tail, version);
    } else {
      var s, rest := list[0], list[1..];
      var width := GetLengthInBits(s.mode, version).value;
      LengthsFitCons(version, list);
      var after := ListBits(version, rest) + tail;
      assert ListBits(version, list) + tail == SegmentBits(s, width) + after;
      hide *;
      ReadFirst(version, s, width, after);
      ReadListBack(version, rest, tail);
      AsReadingsCons(list);
      var head, r := [Reading(s.mode, s.data)], ReadSegments(after, version);
      if |s.data| < Pow2(width) {
        assert (head + r)[1..] == r && (head + AsReadings(rest))[1..] == AsReadings(rest);
      } else {
        assert AsReadings(list)[0].data == s.data;
      }
    }
  }

  lemma {:induction false} ReadNothing(tail: seq<bool>, version: int)
    requires |tail| < 4 || tail[..4] == Clear(4)
    ensures ReadSegments(tail, version) == []
  {
    if |tail| >= 4 {
      var z := Clear(4);
      assert z[..3][..2][..1] == [false] && z[..3][..2] == [false, false] && z[..3] == [false, false, false];
      assert NumberOf([]) == 0;
      assert NumberOf(z[..3][..2][..1]) == 0;
      assert NumberOf(z[..3][..2]) == 0;
      assert NumberOf(z[..3]) == 0;
      assert NumberOf(z) == 0;
    }
  }

  /** The round trip through the padded stream holds exactly when every length fits. */
  lemma {:induction false} DataRoundTrip(version: int, list: seq<Segment>, capacity: nat)
    requires Writable(version, list)
    requires |ListBits(version, list)| <= capacity && capacity % 8 == 0
    ensures |Padded(ListBits(version, list), capacity)| == capacity
    ensures ReadSegments(Padded(ListBits(version, list), capacity), version) == AsReadings(list) <==>
            LengthsFit(version, list)
  {
    var bits := ListBits(version, list);
    var full := Padded(bits, capacity);
    PaddedShape(bits, capacity);
    var tail := full[|bits|..];
    assert full == bits + tail;
    if |bits| + 4 <= capacity {
      assert tail[..4] == (bits + Clear(4))[|bits|..];
    }
    ReadListBack(version, list, tail);
  }
}
