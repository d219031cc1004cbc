/** The error correction blocks of every version and level (ISO/IEC 18004:2015, section 7.5.1, Table 9),
    as the program's table has them. */
module RsBlocks {
  import opened Codewords
  import opened DataBits
  import opened Interleaving
  import opened Wrappers

  /** A row of the table: a count of blocks, their total and their data codewords, and perhaps the same
      again for longer blocks. */
  datatype Row =
    | One(count: nat, total: nat, data: nat)
    | Two(count: nat, total: nat, data: nat, count2: nat, total2: nat, data2: nat)
  {
    /** The numbers as they lie in the table. */
    function Flat(): (row: seq<nat>)
      ensures |row| == if One? then 3 else 6
    {
      if One? then [count, total, data] else [count, total, data, count2, total2, data2]
    }

    function DataCodewords(): nat {
      count * data + (if One? then 0 else count2 * data2)
    }

    function Codewords(): nat {
      count * total + (if One? then 0 else count2 * total2)
    }
  }

  /** The four rows of a version, for the levels L, M, Q and H. */
  datatype Rows = Rows(l: Row, m: Row, q: Row, h: Row) {
    function Row(column: nat): Row
      requires column < 4
    {
      if column == 0 then l else if column == 1 then m else if column == 2 then q else h
    }
  }

  // ---- the table ----

  function Versions1To10(version: int): Rows {
    match version
    case 1 => Rows(One(1, 26, 19), One(1, 26, 16), One(1, 26, 13), One(1, 26, 9))
    case 2 => Rows(One(1, 44, 34), One(1, 44, 28), One(1, 44, 22), One(1, 44, 16))
    case 3 => Rows(One(1, 70, 55), One(1, 70, 44), One(2, 35, 17), One(2, 35, 13))
    case 4 => Rows(One(1, 100, 80), One(2, 50, 32), One(2, 50, 24), One(4, 25, 9))
    case 5 => Rows(One(1, 134, 108), One(2, 67, 43), Two(2, 33, 15, 2, 34, 16), Two(2, 33, 11, 2, 34, 12))
    case 6 => Rows(One(2, 86, 68), One(4, 43, 27), One(4, 43, 19), One(4, 43, 15))
    case 7 => Rows(One(2, 98, 78), One(4, 49, 31), Two(2, 32, 14, 4, 33, 15), Two(4, 39, 13, 1, 40, 14))
    case 8 =>
      Rows(One(2, 121, 97), Two(2, 60, 38, 2, 61, 39),
           Two(4, 40, 18, 2, 41, 19), Two(4, 40, 14, 2, 41, 15))
    case 9 =>
      Rows(One(2, 146, 116), Two(3, 58, 36, 2, 59, 37),
           Two(4, 36, 16, 4, 37, 17), Two(4, 36, 12, 4, 37, 13))
    case _ =>
      Rows(Two(2, 86, 68, 2, 87, 69), Two(4, 69, 43, 1, 70, 44),
           Two(6, 43, 19, 2, 44, 20), Two(6, 43, 15, 2, 44, 16))
  }

  function Versions11To20(version: int): Rows {
    match version
    case 11 =>
      Rows(One(4, 101, 81), Two(1, 80, 50, 4, 81, 51),
           Two(4, 50, 22, 4, 51, 23), Two(3, 36, 12, 8, 37, 13))
    case 12 =>
      Rows(Two(2, 116, 92, 2, 117, 93), Two(6, 58, 36, 2, 59, 37),
           Two(4, 46, 20, 6, 47, 21), Two(7, 42, 14, 4, 43, 15))
    case 13 =>
      Rows(One(4, 133, 107), Two(8, 59, 37, 1, 60, 38),
           Two(8, 44, 20, 4, 45, 21), Two(12, 33, 11, 4, 34, 12))
    case 14 =>
      Rows(Two(3, 145, 115, 1, 146, 116), Two(4, 64, 40, 5, 65, 41),
           Two(11, 36, 16, 5, 37, 17), Two(11, 36, 12, 5, 37, 13))
    case 15 =>
      Rows(Two(5, 109, 87, 1, 110, 88), Two(5, 65, 41, 5, 66, 42),
           Two(5, 54, 24, 7, 55, 25), One(11, 36, 12))
    case 16 =>
      Rows(Two(5, 122, 98, 1, 123, 99), Two(7, 73, 45, 3, 74, 46),
           Two(15, 43, 19, 2, 44, 20), Two(3, 45, 15, 13, 46, 16))
    case 17 =>
      Rows(Two(1, 135, 107, 5, 136, 108), Two(10, 74, 46, 1, 75, 47),
           Two(1, 50, 22, 15, 51, 23), Two(2, 42, 14, 17, 43, 15))
    case 18 =>
      Rows(Two(5, 150, 120, 1, 151, 121), Two(9, 69, 43, 4, 70, 44),
           Two(17, 50, 22, 1, 51, 23), Two(2, 42, 14, 19, 43, 15))
    case 19 =>
      Rows(Two(3, 141, 113, 4, 142, 114), Two(3, 70, 44, 11, 71, 45),
           Two(17, 47, 21, 4, 48, 22), Two(9, 39, 13, 16, 40, 14))
    case _ =>
      Rows(Two(3, 135, 107, 5, 136, 108), Two(3, 67, 41, 13, 68, 42),
           Two(15, 54, 24, 5, 55, 25), Two(15, 43, 15, 10, 44, 16))
  }

  function Versions21To30(version: int): Rows {
    match version
    case 21 =>
      Rows(Two(4, 144, 116, 4, 145, 117), One(17, 68, 42),
           Two(17, 50, 22, 6, 51, 23), Two(19, 46, 16, 6, 47, 17))
    case 22 => Rows(Two(2, 139, 111, 7, 140, 112), One(17, 74, 46), Two(7, 54, 24, 16, 55, 25), One(34, 37, 13))
    case 23 =>
      Rows(Two(4, 151, 121, 5, 152, 122), Two(4, 75, 47, 14, 76, 48),
           Two(11, 54, 24, 14, 55, 25), Two(16, 45, 15, 14, 46, 16))
    case 24 =>
      Rows(Two(6, 147, 117, 4, 148, 118), Two(6, 73, 45, 14, 74, 46),
           Two(11, 54, 24, 16, 55, 25), Two(30, 46, 16, 2, 47, 17))
    case 25 =>
      Rows(Two(8, 132, 106, 4, 133, 107), Two(8, 75, 47, 13, 76, 48),
           Two(7, 54, 24, 22, 55, 25), Two(22, 45, 15, 13, 46, 16))
    case 26 =>
      Rows(Two(10, 142, 114, 2, 143, 115), Two(19, 74, 46, 4, 75, 47),
           Two(28, 50, 22, 6, 51, 23), Two(33, 46, 16, 4, 47, 17))
    case 27 =>
      Rows(Two(8, 152, 122, 4, 153, 123), Two(22, 73, 45, 3, 74, 46),
           Two(8, 53, 23, 26, 54, 24), Two(12, 45, 15, 28, 46, 16))
    case 28 =>
      Rows(Two(3, 147, 117, 10, 148, 118), Two(3, 73, 45, 23, 74, 46),
           Two(4, 54, 24, 31, 55, 25), Two(11, 45, 15, 31, 46, 16))
    case 29 =>
      Rows(Two(7, 146, 116, 7, 147, 117), Two(21, 73, 45, 7, 74, 46),
           Two(1, 53, 23, 37, 54, 24), Two(19, 45, 15, 26, 46, 16))
    case _ =>
      Rows(Two(5, 145, 115, 10, 146, 116), Two(19, 75, 47, 10, 76, 48),
           Two(15, 54, 24, 25, 55, 25), Two(23, 45, 15, 25, 46, 16))
  }

  function Versions31To40(version: int): Rows {
    match version
    case 31 =>
      Rows(Two(13, 145, 115, 3, 146, 116), Two(2, 74, 46, 29, 75, 47),
           Two(42, 54, 24, 1, 55, 25), Two(23, 45, 15, 28, 46, 16))
    case 32 =>
      Rows(One(17, 145, 115), Two(10, 74, 46, 23, 75, 47),
           Two(10, 54, 24, 35, 55, 25), Two(19, 45, 15, 35, 46, 16))
    case 33 =>
      Rows(Two(17, 145, 115, 1, 146, 116), Two(14, 74, 46, 21, 75, 47),
           Two(29, 54, 24, 19, 55, 25), Two(11, 45, 15, 46, 46, 16))
    case 34 =>
      Rows(Two(13, 145, 115, 6, 146, 116), Two(14, 74, 46, 23, 75, 47),
           Two(44, 54, 24, 7, 55, 25), Two(59, 46, 16, 1, 47, 17))
    case 35 =>
      Rows(Two(12, 151, 121, 7, 152, 122), Two(12, 75, 47, 26, 76, 48),
           Two(39, 54, 24, 14, 55, 25), Two(22, 45, 15, 41, 46, 16))
    case 36 =>
      Rows(Two(6, 151, 121, 14, 152, 122), Two(6, 75, 47, 34, 76, 48),
           Two(46, 54, 24, 10, 55, 25), Two(2, 45, 15, 64, 46, 16))
    case 37 =>
      Rows(Two(17, 152, 122, 4, 153, 123), Two(29, 74, 46, 14, 75, 47),
           Two(49, 54, 24, 10, 55, 25), Two(24, 45, 15, 46, 46, 16))
    case 38 =>
      Rows(Two(4, 152, 122, 18, 153, 123), Two(13, 74, 46, 32, 75, 47),
           Two(48, 54, 24, 14, 55, 25), Two(42, 45, 15, 32, 46, 16))
    case 39 =>
      Rows(Two(20, 147, 117, 4, 148, 118), Two(40, 75, 47, 7, 76, 48),
           Two(43, 54, 24, 22, 55, 25), Two(10, 45, 15, 67, 46, 16))
    case _ =>
      Rows(Two(19, 148, 118, 6, 149, 119), Two(18, 75, 47, 31, 76, 48),
           Two(34, 54, 24, 34, 55, 25), Two(20, 45, 15, 61, 46, 16))
  }

  function Versions(version: int): Rows {
    if version <= 10 then Versions1To10(version)
    else if version <= 20 then Versions11To20(version)
    else if version <= 30 then Versions21To30(version)
    else Versions31To40(version)
  }

  /** The column of a level; the levels L, M, Q and H are coded 1, 0, 3 and 2. */
  function LevelColumn(errorCorrectLevel: int): (r: Result<nat>)
    ensures r.Ok? ==> r.value < 4
  {
    match errorCorrectLevel
    case 1 => Ok(0)
    case 0 => Ok(1)
    case 3 => Ok(2)
    case 2 => Ok(3)
    case _ => Throws
  }

  // ---- what holds of every row ----

  /** The codewords a symbol has room for: its modules without those of the function patterns and the
      format and version information, in bytes (ISO/IEC 18004:2015, Table 1). */
  function Capacity(version: int): int {
    var patterns := if version < 2 then 0 else version / 7 + 2;
    var alignment := if version < 2 then 0 else (25 * patterns - 10) * patterns - 55;
    var information := if version < 7 then 0 else 36;
    ((16 * version + 128) * version + 64 - alignment - information) / 8
  }

  predicate UsualChecks(total: nat, data: nat) {
    data + 7 <= total <= data + 30
  }

  /** Between 7 and 30 check codewords a block, less data than a byte-mode length field counts, and
      every codeword of the symbol used, but for one row. */
  ghost predicate Sound(row: Row, version: int, column: nat) {
    && row.count > 0 && UsualChecks(row.total, row.data)
    && (row.Two? ==> UsualChecks(row.total2, row.data2))
    && row.DataCodewords() < ByteLimit(version)
    && row.Codewords() == if version == 15 && column == 3 then 396 else Capacity(version)
  }

  lemma {:induction false} Sound1To5(version: int, column: nat)
    requires 1 <= version <= 5 && column < 4
    ensures Sound(Versions1To10(version).Row(column), version, column)
  {
  }

  lemma {:induction false} Sound6To10(version: int, column: nat)
    requires 6 <= version <= 10 && column < 4
    ensures Sound(Versions1To10(version).Row(column), version, column)
  {
  }

  lemma {:induction false} Sound11To15(version: int, column: nat)
    requires 11 <= version <= 15 && column < 4
    ensures Sound(Versions11To20(version).Row(column), version, column)
  {
  }

  lemma {:induction false} Sound16To20(version: int, column: nat)
    requires 16 <= version <= 20 && column < 4
    ensures Sound(Versions11To20(version).Row(column), version, column)
  {
  }

  lemma {:induction false} Sound21To25(version: int, column: nat)
    requires 21 <= version <= 25 && column < 4
    ensures Sound(Versions21To30(version).Row(column), version, column)
  {
  }

  lemma {:induction false} Sound26To30(version: int, column: nat)
    requires 26 <= version <= 30 && column < 4
    ensures Sound(Versions21To30(version).Row(column), version, column)
  {
  }

  lemma {:induction false} Sound31To35(version: int, column: nat)
    requires 31 <= version <= 35 && column < 4
    ensures Sound(Versions31To40(version).Row(column), version, column)
  {
  }

  lemma {:induction false} Sound36To40(version: int, column: nat)
    requires 36 <= version <= 40 && column < 4
    ensures Sound(Versions31To40(version).Row(column), version, column)
  {
  }

  function TableRow(version: int, column: nat): Row
    requires column < 4
  {
    Versions(version).Row(column)
  }

  lemma {:induction false} RowSound(version: int, column: nat)
    requires 1 <= version <= 40 && column < 4
    ensures Sound(TableRow(version, column), version, column)
  {
    hide Versions1To10, Versions11To20, Versions21To30, Versions31To40, Sound;
    if version <= 10 {
      if version <= 5 { Sound1To5(version, column); } else { Sound6To10(version, column); }
    } else if version <= 20 {
      if version <= 15 { Sound11To15(version, column); } else { Sound16To20(version, column); }
    } else if version <= 30 {
      if version <= 25 { Sound21To25(version, column); } else { Sound26To30(version, column); }
    } else {
      if version <= 35 { Sound31To35(version, column); } else { Sound36To40(version, column); }
    }
  }

  /** Every row uses every codeword its symbol has room for, except that of version 15 at level H, which
      lacks its second group of blocks. */
  lemma {:induction false} RowsFillTheirSymbols(version: int, column: nat)
    requires 1 <= version <= 40 && column < 4
    ensures TableRow(version, column).Codewords() == Capacity(version) <==> !(version == 15 && column == 3)
  {
    RowSound(version, column);
    hide TableRow;
  }

  // ---- the block list ----

  function Repeat(block: RSBlock, n: nat): (blocks: seq<RSBlock>)
    ensures |blocks| == n && forall i :: 0 <= i < n ==> blocks[i] == block
  {
    seq(n, i => block)
  }

  function Blocks(row: Row): seq<RSBlock> {
    Repeat(RSBlock(row.total, row.data), row.count)
    + if row.One? then [] else Repeat(RSBlock(row.total2, row.data2), row.count2)
  }

  /** Throws exactly outside the table, and otherwise lists every block of the row. */
  method GetRSBlocks(version: int, errorCorrectLevel: int) returns (r: Result<seq<RSBlock>>)
    ensures r.Ok? <==> 1 <= version <= 40 && LevelColumn(errorCorrectLevel).Ok?
    ensures r.Ok? ==> r.value == Blocks(TableRow(version, LevelColumn(errorCorrectLevel).value))
  {
    var column := LevelColumn(errorCorrectLevel);
    if column.Throws? || version < 1 || version > 40 {
      return Throws;
    }
    ghost var row := TableRow(version, column.value);
    var rsBlock := TableRow(version, column.value).Flat();
    hide TableRow, LevelColumn;
    var length := |rsBlock| / 3;
    var list := [];
    for i := 0 to length
      invariant list == if i == 0 then [] else if i == 1 then Repeat(RSBlock(row.total, row.data), row.count)
                        else Blocks(row)
    {
      var count, totalCount, dataCount := rsBlock[i * 3], rsBlock[i * 3 + 1], rsBlock[i * 3 + 2];
      var block := RSBlock(totalCount, dataCount);
      ghost var before := list;
      for j := 0 to count
        invariant list == before + Repeat(block, j)
      {
        list := list + [block];
      }
    }
    return Ok(list);
  }

  lemma {:induction false} TotalRepeat(n: seq<nat>, x: nat)
    requires forall i :: 0 <= i < |n| ==> n[i] == x
    ensures Total(n) == |n| * x
  {
    if n != [] {
      TotalRepeat(n[..|n| - 1], x);
      assert |n| * x == (|n| - 1) * x + x;
    }
  }

  lemma {:induction false} TotalConcat(a: seq<nat>, b: seq<nat>)
    ensures Total(a + b) == Total(a) + Total(b)
  {
    if b == [] {
      assert a + b == a;
    } else {
      TotalConcat(a, b[..|b| - 1]);
      assert (a + b)[..|a + b| - 1] == a + b[..|b| - 1];
    }
  }

  lemma {:induction false} BlocksTotals(row: Row)
    ensures Total(DataCounts(Blocks(row))) == row.DataCodewords()
    ensures Total(TotalCounts(Blocks(row))) == row.Codewords()
  {
    var a := Repeat(RSBlock(row.total, row.data), row.count);
    var b := if row.One? then [] else Repeat(RSBlock(row.total2, row.data2), row.count2);
    assert Blocks(row) == a + b;
    assert DataCounts(a + b) == DataCounts(a) + DataCounts(b);
    assert TotalCounts(a + b) == TotalCounts(a) + TotalCounts(b);
    TotalConcat(DataCounts(a), DataCounts(b));
    TotalConcat(TotalCounts(a), TotalCounts(b));
    TotalRepeat(DataCounts(a), row.data);
    TotalRepeat(TotalCounts(a), row.total);
    if row.Two? {
      TotalRepeat(DataCounts(b), row.data2);
      TotalRepeat(TotalCounts(b), row.total2);
    }
  }

  /** The blocks of every version and level can be encoded, hold less data than a byte-mode length field
      counts, and fit their symbol. */
  lemma {:induction false} TableBlocks(version: int, column: nat)
    requires 1 <= version <= 40 && column < 4
    ensures var blocks := Blocks(TableRow(version, column));
            && ValidBlocks(blocks)
            && (forall r :: 0 <= r < |blocks| ==> 7 <= blocks[r].EcCount() <= 30)
            && Total(DataCounts(blocks)) < ByteLimit(version)
            && 0 < Total(TotalCounts(blocks)) <= Capacity(version)
  {
    RowSound(version, column);
    BlocksTotals(TableRow(version, column));
    var row := TableRow(version, column);
    hide TableRow, Total, DataCounts, TotalCounts;
    PositiveCodewords(row.count, row.total);
    if version == 15 {
      assert Capacity(15) == 655;
    }
    forall r | 0 <= r < |Blocks(row)|
      ensures UsualChecks(Blocks(row)[r].totalCount, Blocks(row)[r].dataCount)
    {
    }
  }

  lemma {:induction false} PositiveCodewords(count: nat, total: nat)
    requires count > 0 && total > 0
    ensures count * total > 0
  {
  }
}
