/** The version for a text: the program's list of the lengths that each version holds, against the rows of
    the block table and the data bit stream. */
module VersionChoice {
  import opened BitBuffer
  import opened Bits
  import opened DataBits
  import opened RsBlocks
  import opened Wrappers

  /** The entries of a version for the levels L, M, Q and H. */
  datatype Limits = Limits(l: nat, m: nat, q: nat, h: nat)

  // ---- the list ----

  function Limits1To10(version: int): Limits {
    match version
    case 1 => Limits(17, 14, 11, 7)
    case 2 => Limits(32, 26, 20, 14)
    case 3 => Limits(53, 42, 32, 24)
    case 4 => Limits(78, 62, 46, 34)
    case 5 => Limits(106, 84, 60, 44)
    case 6 => Limits(134, 106, 74, 58)
    case 7 => Limits(154, 122, 86, 64)
    case 8 => Limits(192, 152, 108, 84)
    case 9 => Limits(230, 180, 130, 98)
    case _ => Limits(271, 213, 151, 119)
  }

  function Limits11To20(version: int): Limits {
    match version
    case 11 => Limits(321, 251, 177, 137)
    case 12 => Limits(367, 287, 203, 155)
    case 13 => Limits(425, 331, 241, 177)
    case 14 => Limits(458, 362, 258, 194)
    case 15 => Limits(520, 412, 292, 220)
    case 16 => Limits(586, 450, 322, 250)
    case 17 => Limits(644, 504, 364, 280)
    case 18 => Limits(718, 560, 394, 310)
    case 19 => Limits(792, 624, 442, 338)
    case _ => Limits(858, 666, 482, 382)
  }

  function Limits21To30(version: int): Limits {
    match version
    case 21 => Limits(929, 711, 509, 403)
    case 22 => Limits(1003, 779, 565, 439)
    case 23 => Limits(1091, 857, 611, 461)
    case 24 => Limits(1171, 911, 661, 511)
    case 25 => Limits(1273, 997, 715, 535)
    case 26 => Limits(1367, 1059, 751, 593)
    case 27 => Limits(1465, 1125, 805, 625)
    case 28 => Limits(1528, 1190, 868, 658)
    case 29 => Limits(1628, 1264, 908, 698)
    case _ => Limits(1732, 1370, 982, 742)
  }

  function Limits31To40(version: int): Limits {
    match version
    case 31 => Limits(1840, 1452, 1030, 790)
    case 32 => Limits(1952, 1538, 1112, 842)
    case 33 => Limits(2068, 1628, 1168, 898)
    case 34 => Limits(2188, 1722, 1228, 958)
    case 35 => Limits(2303, 1809, 1283, 983)
    case 36 => Limits(2431, 1911, 1351, 1051)
    case 37 => Limits(2563, 1989, 1423, 1093)
    case 38 => Limits(2699, 2099, 1499, 1139)
    case 39 => Limits(2809, 2213, 1579, 1219)
    case _ => Limits(2953, 2331, 1663, 1273)
  }

  function LimitLength(version: int): Limits {
    if version <= 10 then Limits1To10(version)
    else if version <= 20 then Limits11To20(version)
    else if version <= 30 then Limits21To30(version)
    else Limits31To40(version)
  }

  /** The entry for a level code, 1 for L, 0 for M, 3 for Q and 2 for H; the limit stays zero for any other. */
  function Limit(version: int, level: int): nat {
    var limits := LimitLength(version);
    match level
    case 1 => limits.l
    case 0 => limits.m
    case 3 => limits.q
    case 2 => limits.h
    case _ => 0
  }

  // ---- the list against the block table ----

  /** A symbol of this row holds a byte segment of k bytes, with its mode and its length field, exactly if k
      is at most the limit. */
  ghost predicate Agrees(row: Row, version: int, limit: nat) {
    var width := if version <= 9 then 8 else 16;
    4 + width + 8 * limit <= 8 * row.DataCodewords() < 4 + width + 8 * limit + 8
  }

  lemma {:induction false} Agree1To5(version: int)
    requires 1 <= version <= 5
    ensures var rows, limits := Versions1To10(version), Limits1To10(version);
            && Agrees(rows.l, version, limits.l) && Agrees(rows.m, version, limits.m)
            && Agrees(rows.q, version, limits.q) && Agrees(rows.h, version, limits.h)
  {
  }

  lemma {:induction false} Agree6To10(version: int)
    requires 6 <= version <= 10
    ensures var rows, limits := Versions1To10(version), Limits1To10(version);
            && Agrees(rows.l, version, limits.l) && Agrees(rows.m, version, limits.m)
            && Agrees(rows.q, version, limits.q) && Agrees(rows.h, version, limits.h)
  {
  }

  lemma {:induction false} Agree11To15(version: int)
    requires 11 <= version <= 15
    ensures var rows, limits := Versions11To20(version), Limits11To20(version);
            && Agrees(rows.l, version, limits.l) && Agrees(rows.m, version, limits.m)
            && Agrees(rows.q, version, limits.q) && Agrees(rows.h, version, if version == 15 then 129 else limits.h)
  {
  }

  lemma {:induction false} Agree16To20(version: int)
    requires 16 <= version <= 20
    ensures var rows, limits := Versions11To20(version), Limits11To20(version);
            && Agrees(rows.l, version, limits.l) && Agrees(rows.m, version, limits.m)
            && Agrees(rows.q, version, limits.q) && Agrees(rows.h, version, limits.h)
  {
  }

  lemma {:induction false} Agree21To25(version: int)
    requires 21 <= version <= 25
    ensures var rows, limits := Versions21To30(version), Limits21To30(version);
            && Agrees(rows.l, version, limits.l) && Agrees(rows.m, version, limits.m)
            && Agrees(rows.q, version, limits.q) && Agrees(rows.h, version, limits.h)
  {
  }

  lemma {:induction false} Agree26To30(version: int)
    requires 26 <= version <= 30
    ensures var rows, limits := Versions21To30(version), Limits21To30(version);
            && Agrees(rows.l, version, limits.l) && Agrees(rows.m, version, limits.m)
            && Agrees(rows.q, version, limits.q) && Agrees(rows.h, version, limits.h)
  {
  }

  lemma {:induction false} Agree31To35(version: int)
    requires 31 <= version <= 35
    ensures var rows, limits := Versions31To40(version), Limits31To40(version);
            && Agrees(rows.l, version, limits.l) && Agrees(rows.m, version, limits.m)
            && Agrees(rows.q, version, limits.q) && Agrees(rows.h, version, limits.h)
  {
  }

  lemma {:induction false} Agree36To40(version: int)
    requires 36 <= version <= 40
    ensures var rows, limits := Versions31To40(version), Limits31To40(version);
            && Agrees(rows.l, version, limits.l) && Agrees(rows.m, version, limits.m)
            && Agrees(rows.q, version, limits.q) && Agrees(rows.h, version, limits.h)
  {
  }

  /** Every entry of the list is what its row holds, except that of version 15 at level H: listed as 220, it
      is 129. */
  lemma {:induction false} LimitsAgree(version: int, level: int)
    requires 1 <= version <= 40 && level in {0, 1, 2, 3}
    ensures LevelColumn(level).Ok?
    ensures Agrees(TableRow(version, LevelColumn(level).value), version,
                   if version == 15 && level == 2 then 129 else Limit(version, level))
  {
    hide Versions1To10, Versions11To20, Versions21To30, Versions31To40, Agrees;
    hide Limits1To10, Limits11To20, Limits21To30, Limits31To40;
    if version <= 10 {
      if version <= 5 { Agree1To5(version); } else { Agree6To10(version); }
    } else if version <= 20 {
      if version <= 15 { Agree11To15(version); } else { Agree16To20(version); }
    } else if version <= 30 {
      if version <= 25 { Agree21To25(version); } else { Agree26To30(version); }
    } else {
      if version <= 35 { Agree31To35(version); } else { Agree36To40(version); }
    }
  }

  lemma {:induction false} OneSegment(version: int, data: seq<Byte>)
    requires 1 <= version <= 40
    ensures Writable(version, [Segment(4, data)])
    ensures |ListBits(version, [Segment(4, data)])| == 4 + (if version <= 9 then 8 else 16) + 8 * |data|
  {
    var list := [Segment(4, data)];
    assert list[1..] == [];
    hide BitsOf, BytesBits;
  }

  /** For every version and level, a text of so many bytes fits the data codewords exactly if it is no longer
      than the list says, or than 129 bytes in version 15 at level H. */
  lemma {:induction false} ListedIsHeld(version: int, level: int, data: seq<Byte>)
    requires 1 <= version <= 40 && level in {0, 1, 2, 3}
    ensures Writable(version, [Segment(4, data)]) && LevelColumn(level).Ok?
    ensures |ListBits(version, [Segment(4, data)])|
            <= 8 * TableRow(version, LevelColumn(level).value).DataCodewords() <==>
            |data| <= if version == 15 && level == 2 then 129 else Limit(version, level)
  {
    hide *;
    LimitsAgree(version, level);
    OneSegment(version, data);
    Bound(TableRow(version, LevelColumn(level).value), version,
          if version == 15 && level == 2 then 129 else Limit(version, level), |data|);
  }

  lemma {:induction false} Bound(row: Row, version: int, limit: nat, k: nat)
    requires Agrees(row, version, limit)
    ensures 4 + (if version <= 9 then 8 else 16) + 8 * k <= 8 * row.DataCodewords() <==> k <= limit
  {
    hide Row.DataCodewords;
  }

  // ---- the choice ----

  lemma {:induction false} LimitsGrow(version: int, later: int, level: int)
    requires 1 <= version <= later <= 40
    ensures Limit(version, level) <= Limit(later, level)
    decreases later - version
  {
    if version < later {
      OneVersionUp(version, level);
      hide *;
      LimitsGrow(version + 1, later, level);
    }
  }

  lemma {:induction false} OneVersionUp(version: int, level: int)
    requires 1 <= version < 40
    ensures Limit(version, level) <= Limit(version + 1, level)
  {
  }

  /** The first version that is long enough by the list; past the end of the list the source reads an entry
      that is not there, or finds the version too great, and throws in either case. */
  method GetTypeNumber(length: nat, correctLevel: int) returns (r: Result<nat>)
    ensures r.Ok? <==> length <= Limit(40, correctLevel)
    ensures r.Ok? ==> Chosen(r.value, length, correctLevel)
  {
    hide Limit, LimitLength;
    var nType := 1;
    for i := 0 to 41
      invariant nType == i + 1
      invariant forall v :: 1 <= v <= i && v <= 40 ==> length > Limit(v, correctLevel)
    {
      var nLimit := 0;
      if correctLevel in {0, 1, 2, 3} {
        if i == 40 {
          return Throws;
        }
        nLimit := Limit(i + 1, correctLevel);
      } else {
        NoLevel(i + 1, correctLevel);
      }
      if length <= nLimit {
        break;
      }
      nType := nType + 1;
    }
    if nType > 40 {
      return Throws;
    }
    LimitsGrow(nType, 40, correctLevel);
    return Ok(nType);
  }

  ghost predicate Chosen(version: int, length: nat, level: int) {
    && 1 <= version <= 40 && length <= Limit(version, level)
    && forall v :: 1 <= v < version ==> length > Limit(v, level)
  }

  lemma {:induction false} NoLevel(version: int, level: int)
    requires level !in {0, 1, 2, 3}
    ensures Limit(version, level) == Limit(40, level) == 0
  {
    hide LimitLength;
  }

  ghost predicate Holds(version: int, level: int, data: seq<Byte>)
    requires 1 <= version <= 40 && level in {0, 1, 2, 3}
  {
    ListedIsHeld(version, level, data);
    |ListBits(version, [Segment(4, data)])| <= 8 * TableRow(version, LevelColumn(level).value).DataCodewords()
  }

  /** The version chosen for a text by its true length is the smallest one that holds it, unless the level
      is H and the text has 195 to 220 bytes: those come to version 15, which does not hold them. */
  lemma {:induction false} ChosenHolds(version: int, level: int, data: seq<Byte>)
    requires level in {0, 1, 2, 3} && Chosen(version, |data|, level)
    ensures Holds(version, level, data) <==> !(level == 2 && 195 <= |data| <= 220)
    ensures forall v :: 1 <= v < version ==> !Holds(v, level, data)
  {
    assert Limit(14, 2) == 194 && Limit(15, 2) == 220;
    hide Limit, ListBits, TableRow, LevelColumn;
    ListedIsHeld(version, level, data);
    forall v | 1 <= v < version
      ensures !Holds(v, level, data)
    {
      ListedIsHeld(v, level, data);
    }
  }
}
