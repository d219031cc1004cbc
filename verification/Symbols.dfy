/** From the data list to the modules of a symbol and back: what a scanner that knows the layout
    reads off a finished symbol. */
module Symbols {
  import opened Bits
  import opened BitBuffer
  import opened Codewords
  import opened DataBits
  import opened Interleaving
  import opened MapData
  import opened QrMath
  import opened QrPolynomials
  import opened RsBlocks
  import opened Sequences
  import opened Zigzag

  lemma {:induction false} BitOfBytes(data: seq<Byte>, j: nat)
    requires j < 8 * |data|
    ensures BytesBits(data)[j] == TestBit(data[j / 8], 7 - j % 8)
  {
    var n := |data| - 1;
    if j < 8 * n {
      BitOfBytes(data[..n], j);
    }
  }

  /** The modules carry the bits of the codewords in order, then zeros. */
  lemma {:induction false} StreamIsBits(data: seq<Slot>, n: nat)
    requires n >= 8 * |data|
    ensures Stream(data, n) == BytesBits(Reads(data)) + Clear(n - 8 * |data|)
  {
    var bits := BytesBits(Reads(data)) + Clear(n - 8 * |data|);
    forall j | 0 <= j < n
      ensures Stream(data, n)[j] == bits[j]
    {
      if j < 8 * |data| {
        BitOfBytes(Reads(data), j);
      }
    }
  }

  /** The first n bytes of a list of bits. */
  function BytesOf(bits: seq<bool>, n: nat): (data: seq<Slot>)
    requires 8 * n <= |bits|
    ensures |data| == n
  {
    seq(n, i requires 0 <= i < n => Value(ReadBytes(bits, n)[i] % 256))
  }

  lemma {:induction false} BytesOfBits(data: seq<Byte>, rest: seq<bool>)
    ensures Reads(BytesOf(BytesBits(data) + rest, |data|)) == data
  {
    ReadBytesBack(data, rest);
  }

  lemma {:induction false} ReadsConcat(a: seq<seq<Slot>>, b: seq<seq<Slot>>)
    requires |a| == |b| && forall r :: 0 <= r < |a| ==> Reads(a[r]) == Reads(b[r])
    ensures Reads(Concat(a)) == Reads(Concat(b))
  {
    if a != [] {
      var n := |a| - 1;
      ReadsConcat(a[..n], b[..n]);
      assert Reads(Concat(a)) == Reads(Concat(a[..n])) + Reads(a[n]);
      assert Reads(Concat(b)) == Reads(Concat(b[..n])) + Reads(b[n]);
    }
  }

  /** Only the bytes of the codewords matter to a reader. */
  lemma {:induction false} ReadCodewordsOfBytes(a: seq<Slot>, b: seq<Slot>, rsBlocks: seq<RSBlock>, version: int)
    requires |a| >= Total(DataCounts(rsBlocks)) && Reads(a) == Reads(b)
    ensures ReadCodewords(a, rsBlocks, version) == ReadCodewords(b, rsBlocks, version)
  {
    var counts := DataCounts(rsBlocks);
    var n := Total(counts);
    var x, y := Deinterleave(counts, a[..n]), Deinterleave(counts, b[..n]);
    assert forall i :: 0 <= i < |a| ==> a[i].Read() == Reads(a)[i] && b[i].Read() == Reads(b)[i];
    PositionsInRange(counts);
    forall r | 0 <= r < |counts|
      ensures Reads(x[r]) == Reads(y[r])
    {
      assert Lengths(x)[r] == Lengths(y)[r] == counts[r];
      assert forall i :: 0 <= i < counts[r] ==> x[r][i].Read() == y[r][i].Read();
    }
    ReadsConcat(x, y);
  }

  /** Read the free modules along the walk with the mask taken off, group them into codewords, and
      read the segments out of those. */
  ghost function ReadSymbol(g: Grid, h: Grid, maskPattern: nat, rsBlocks: seq<RSBlock>, version: int): seq<Reading>
    requires Size(|g|) && Square(g, |g|) && Square(h, |g|) && maskPattern <= 7
    requires |FreeCells(g)| >= 8 * Total(TotalCounts(rsBlocks))
    requires Total(TotalCounts(rsBlocks)) >= Total(DataCounts(rsBlocks))
  {
    ReadModulesLength(g, h, maskPattern, Strips(|g|), 0);
    CountAll(g);
    var bits := ReadModules(g, h, maskPattern, Strips(|g|), 0);
    ReadCodewords(BytesOf(bits, Total(TotalCounts(rsBlocks))), rsBlocks, version)
  }

  /** A symbol with room for its codewords, filled along the walk under any of the eight masks, reads
      back as the data list it was made from, exactly when every length fits its length field. */
  lemma {:induction false} SymbolRoundTrip(
      version: int, list: seq<Segment>, rsBlocks: seq<RSBlock>, bytes: seq<Byte>,
      dc: seq<seq<Slot>>, ec: seq<seq<Slot>>,
      g: Grid, h: Grid, maskPattern: nat)
    requires ValidBlocks(rsBlocks) && Encodes(rsBlocks, bytes, dc, ec)
    requires Writable(version, list) && |bytes| == Total(DataCounts(rsBlocks))
    requires |ListBits(version, list)| <= 8 * |bytes|
    requires BytesBits(bytes) == Padded(ListBits(version, list), 8 * |bytes|)
    requires Size(|g|) && Square(g, |g|) && maskPattern <= 7
    requires Walked(g, h, Interleave(dc) + Interleave(ec), maskPattern, Strips(|g|), 0)
    requires |Interleave(dc) + Interleave(ec)| == Total(TotalCounts(rsBlocks))
    requires |FreeCells(g)| >= 8 * Total(TotalCounts(rsBlocks))
    ensures Total(TotalCounts(rsBlocks)) >= Total(DataCounts(rsBlocks))
    ensures ReadSymbol(g, h, maskPattern, rsBlocks, version) == AsReadings(list) <==> LengthsFit(version, list)
  {
    var data, n := Interleave(dc) + Interleave(ec), Count(g, Strips(|g|), 0);
    CodewordsRoundTrip(version, list, rsBlocks, bytes, dc, ec);
    CountAll(g);
    ReadPlaced(g, h, data, maskPattern, Strips(|g|), 0);
    StreamIsBits(data, n);
    BytesOfBits(Reads(data), Clear(n - 8 * |data|));
    assert ReadSymbol(g, h, maskPattern, rsBlocks, version) ==
           ReadCodewords(BytesOf(ReadModules(g, h, maskPattern, Strips(|g|), 0), |data|), rsBlocks, version);
    hide *;
    ReadCodewordsOfBytes(BytesOf(Stream(data, n), |data|), data, rsBlocks, version);
  }

  lemma {:induction false} DataWithinTotal(rsBlocks: seq<RSBlock>)
    requires ValidBlocks(rsBlocks)
    ensures Total(DataCounts(rsBlocks)) <= Total(TotalCounts(rsBlocks))
  {
    if rsBlocks != [] {
      var front := rsBlocks[..|rsBlocks| - 1];
      DataWithinTotal(front);
      assert DataCounts(rsBlocks)[..|front|] == DataCounts(front);
      assert TotalCounts(rsBlocks)[..|front|] == TotalCounts(front);
    }
  }

  /** Fewer than 255 check bytes a block; RsBlocks.TableBlocks says that the program's table is far below. */
  ghost predicate FewChecks(rsBlocks: seq<RSBlock>)
    requires ValidBlocks(rsBlocks)
  {
    forall r :: 0 <= r < |rsBlocks| ==> rsBlocks[r].EcCount() < 255
  }

  /** The end of making a symbol, when the function patterns are drawn: create the codewords and map
      them. Whatever goes through reads back, exactly when every length fits its length field. */
  method Make(math: QRMath, version: int, rsBlocks: seq<RSBlock>, dataList: seq<Segment>,
              modules: array2<Module>, maskPattern: nat) returns (ok: bool)
    requires math.Valid() && ValidBlocks(rsBlocks)
    requires forall i :: 0 <= i < |dataList| ==> |dataList[i].data| < 0x1_0000_0000
    requires modules.Length0 == modules.Length1 && Size(modules.Length0)
    requires |FreeCells(GridOf(modules))| >= 8 * Total(TotalCounts(rsBlocks))
    modifies modules
    ensures Total(DataCounts(rsBlocks)) <= Total(TotalCounts(rsBlocks))
    ensures ok ==>
      && Writable(version, dataList) && |ListBits(version, dataList)| <= 8 * Total(DataCounts(rsBlocks))
      && (maskPattern <= 7 || FreeCells(old(GridOf(modules))) == {})
    ensures FewChecks(rsBlocks) ==>
      (ok <==>
        && Writable(version, dataList) && |ListBits(version, dataList)| <= 8 * Total(DataCounts(rsBlocks))
        && (maskPattern <= 7 || FreeCells(old(GridOf(modules))) == {}))
    ensures ok && maskPattern <= 7 ==>
      (ReadSymbol(old(GridOf(modules)), GridOf(modules), maskPattern, rsBlocks, version) == AsReadings(dataList) <==>
       LengthsFit(version, dataList))
    ensures ok && maskPattern <= 7 && Bytes(dataList) && Total(DataCounts(rsBlocks)) < ByteLimit(version) ==>
      ReadSymbol(old(GridOf(modules)), GridOf(modules), maskPattern, rsBlocks, version) == AsReadings(dataList)
  {
    assert FewChecks(rsBlocks) ==> forall bytes, r :: 0 <= r < |rsBlocks| ==> !BadBlock(bytes, rsBlocks, r);
    hide Encodes, Interleave, Total, FreeCells, Placed, Walked, BadBlock, ReadSymbol, LengthsFit, ListBits;
    hide Padded, AsReadings;
    DataWithinTotal(rsBlocks);
    ghost var g := GridOf(modules);
    var data, bytes, dc, ec := CreateData(math, version, rsBlocks, dataList);
    if data.Throws? {
      return false;
    }
    ok := PlaceData(modules, data.value, maskPattern);
    if ok && maskPattern <= 7 {
      SymbolRoundTrip(version, dataList, rsBlocks, bytes, dc, ec, g, GridOf(modules), maskPattern);
      if Bytes(dataList) && Total(DataCounts(rsBlocks)) < ByteLimit(version) {
        BytesFit(version, dataList, Total(DataCounts(rsBlocks)));
      }
    }
  }

  /** The symbol reads back as the data list. */
  ghost predicate ReadsBack(
      g: Grid, h: Grid, maskPattern: nat, rsBlocks: seq<RSBlock>, version: int, list: seq<Segment>) {
    && Size(|g|) && Square(g, |g|) && Square(h, |g|) && maskPattern <= 7
    && |FreeCells(g)| >= 8 * Total(TotalCounts(rsBlocks))
    && Total(TotalCounts(rsBlocks)) >= Total(DataCounts(rsBlocks))
    && ReadSymbol(g, h, maskPattern, rsBlocks, version) == AsReadings(list)
  }

  /** The program's own path, with its own block table and its only kind of segment: it goes through
      exactly for the forty versions, the four levels, the eight masks and data that fits, and whatever
      goes through reads back. */
  method MakeSymbol(math: QRMath, version: int, errorCorrectLevel: int, dataList: seq<Segment>,
                    modules: array2<Module>, maskPattern: nat) returns (ok: bool)
    requires math.Valid() && Bytes(dataList)
    requires forall i :: 0 <= i < |dataList| ==> |dataList[i].data| < 0x1_0000_0000
    requires modules.Length0 == modules.Length1 && Size(modules.Length0)
    requires 1 <= version <= 40 ==> |FreeCells(GridOf(modules))| >= 8 * Capacity(version)
    modifies modules
    ensures ok <==>
      && 1 <= version <= 40 && LevelColumn(errorCorrectLevel).Ok? && maskPattern <= 7
      && Writable(version, dataList)
      && |ListBits(version, dataList)| <= 8 * TableRow(version, LevelColumn(errorCorrectLevel).value).DataCodewords()
    ensures ok ==> ReadsBack(old(GridOf(modules)), GridOf(modules), maskPattern,
                             Blocks(TableRow(version, LevelColumn(errorCorrectLevel).value)), version, dataList)
  {
    var blocks := GetRSBlocks(version, errorCorrectLevel);
    if blocks.Throws? {
      return false;
    }
    hide TableRow, LevelColumn, Blocks, Capacity, Total, FreeCells, Placed, Walked, ReadSymbol, LengthsFit;
    hide ListBits, AsReadings;
    TableBlocks(version, LevelColumn(errorCorrectLevel).value);
    BlocksTotals(TableRow(version, LevelColumn(errorCorrectLevel).value));
    ok := Make(math, version, blocks.value, dataList, modules, maskPattern);
  }
}
