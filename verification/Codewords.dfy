/** createData and createBytes: from the data list to the interleaved codeword sequence. */
module Codewords {
  import opened Bits
  import opened BitBuffer
  import opened DataBits
  import opened ErrorCorrection
  import opened Interleaving
  import opened QrMath
  import opened QrPolynomials
  import opened Sequences
  import opened Wrappers

  datatype RSBlock = RSBlock(totalCount: nat, dataCount: nat) {
    predicate Valid() {
      dataCount <= totalCount
    }

    function EcCount(): nat
      requires Valid()
    {
      totalCount - dataCount
    }
  }

  ghost predicate ValidBlocks(rsBlocks: seq<RSBlock>) {
    forall r :: 0 <= r < |rsBlocks| ==> rsBlocks[r].Valid()
  }

  function DataCounts(rsBlocks: seq<RSBlock>): (n: seq<nat>)
    ensures |n| == |rsBlocks|
  {
    seq(|rsBlocks|, r requires 0 <= r < |rsBlocks| => rsBlocks[r].dataCount)
  }

  function TotalCounts(rsBlocks: seq<RSBlock>): (n: seq<nat>)
    ensures |n| == |rsBlocks|
  {
    seq(|rsBlocks|, r requires 0 <= r < |rsBlocks| => rsBlocks[r].totalCount)
  }

  /** The bytes of the buffer that belong to block r; bytes past its end read as zero. */
  ghost function BlockData(buffer: seq<Byte>, rsBlocks: seq<RSBlock>, r: nat): (d: seq<Byte>)
    requires r < |rsBlocks|
    ensures |d| == rsBlocks[r].dataCount
  {
    var offset := Total(DataCounts(rsBlocks)[..r]);
    seq<Byte>(rsBlocks[r].dataCount, i requires 0 <= i < rsBlocks[r].dataCount => ByteAt(buffer, offset + i))
  }

  function ByteAt(buffer: seq<Byte>, i: nat): Byte {
    if i < |buffer| then buffer[i] else 0
  }

  /** A block on which error correction throws: 256 check bytes or more, or 255 for data that is
      not all zero. */
  ghost predicate BadBlock(buffer: seq<Byte>, rsBlocks: seq<RSBlock>, r: nat)
    requires ValidBlocks(rsBlocks) && r < |rsBlocks|
  {
    || rsBlocks[r].EcCount() > 255
    || (rsBlocks[r].EcCount() == 255 && !AllZero(BlockData(buffer, rsBlocks, r)))
  }

  /** The blocks a codeword sequence is made of: the data of each, with its check bytes. */
  ghost predicate Encodes(
      rsBlocks: seq<RSBlock>, buffer: seq<Byte>, dcdata: seq<seq<Slot>>, ecdata: seq<seq<Slot>>)
    requires ValidBlocks(rsBlocks)
  {
    && |dcdata| == |ecdata| == |rsBlocks|
    && forall r :: 0 <= r < |rsBlocks| ==> EncodesBlock(rsBlocks, buffer, dcdata[r], ecdata[r], r)
  }

  ghost predicate EncodesBlock(
      rsBlocks: seq<RSBlock>, buffer: seq<Byte>, dc: seq<Slot>, ec: seq<Slot>, r: nat)
    requires ValidBlocks(rsBlocks) && r < |rsBlocks|
  {
    && Reads(dc) == BlockData(buffer, rsBlocks, r)
    && Codeword(Reads(dc), Reads(ec), rsBlocks[r].EcCount())
  }

  /** One column of the interleaving: an entry of every block that is long enough. */
  method SpreadColumn(blocks: seq<seq<Slot>>, i: nat, data: array<Slot>, start: nat) returns (index: nat)
    requires start + |Column(blocks, i)| <= data.Length
    modifies data
    ensures index == start + |Column(blocks, i)|
    ensures data[..index] == old(data[..start]) + Column(blocks, i)
  {
    hide Last;
    index := start;
    for r := 0 to |blocks|
      invariant index == start + |Column(blocks[..r], i)| <= data.Length
      invariant data[..index] == old(data[..start]) + Column(blocks[..r], i)
    {
      ColumnPrefix(blocks, r, i);
      if i < |blocks[r]| {
        data[index] := blocks[r][i];
        index := index + 1;
      }
    }
    assert blocks[..|blocks|] == blocks;
  }

  /** Interleaves the blocks into the codeword sequence, from slot `start` on. */
  method Spread(blocks: seq<seq<Slot>>, maxCount: nat, data: array<Slot>, start: nat) returns (index: nat)
    requires maxCount == MaxLength(blocks)
    requires start + |Interleave(blocks)| <= data.Length
    modifies data
    ensures index == start + |Interleave(blocks)|
    ensures data[..index] == old(data[..start]) + Interleave(blocks)
  {
    hide Column;
    index := start;
    for i := 0 to maxCount
      invariant index == start + |Columns(blocks, i)| <= data.Length
      invariant data[..index] == old(data[..start]) + Columns(blocks, i)
    {
      ColumnsPrefix(blocks, i + 1, maxCount);
      index := SpreadColumn(blocks, i, data, index);
    }
  }

  lemma {:induction false} ColumnPrefix<T>(blocks: seq<seq<T>>, r: nat, i: nat)
    requires r < |blocks|
    ensures Column(blocks[..r + 1], i) ==
            Column(blocks[..r], i) + if i < |blocks[r]| then [blocks[r][i]] else []
    ensures |Column(blocks[..r + 1], i)| <= |Column(blocks, i)|
    decreases |blocks|
  {
    assert blocks[..r + 1][..r] == blocks[..r];
    if r < |blocks| - 1 {
      var front := blocks[..|blocks| - 1];
      ColumnPrefix(front, r, i);
      assert front[..r + 1] == blocks[..r + 1];
    } else {
      assert blocks[..r + 1] == blocks;
    }
  }

  lemma {:induction false} ColumnsPrefix<T>(blocks: seq<seq<T>>, n: nat, m: nat)
    requires n <= m
    ensures |Columns(blocks, n)| <= |Columns(blocks, m)|
    decreases m
  {
    if n < m {
      ColumnsPrefix(blocks, n, m - 1);
    }
  }

  lemma {:induction false} TotalPrefix(n: seq<nat>, r: nat)
    requires r < |n|
    ensures Total(n[..r + 1]) == Total(n[..r]) + n[r]
  {
    assert n[..r + 1][..r] == n[..r];
  }

  lemma {:induction false} MaxLengthAppend<T>(blocks: seq<seq<T>>, b: seq<T>)
    ensures MaxLength(blocks + [b]) == Max(MaxLength(blocks), |b|)
  {
    assert (blocks + [b])[..|blocks|] == blocks;
  }

  lemma {:induction false} TotalsAdd(a: seq<nat>, b: seq<nat>, c: seq<nat>)
    requires |a| == |b| == |c| && forall r :: 0 <= r < |a| ==> c[r] == a[r] + b[r]
    ensures Total(c) == Total(a) + Total(b)
  {
    if a != [] {
      var n := |a| - 1;
      TotalsAdd(a[..n], b[..n], c[..n]);
    }
  }

  /** The part of createBytes that runs once for every block. */
  method EncodeBlock(
      math: QRMath, buffer: seq<Byte>, ghost rsBlocks: seq<RSBlock>, ghost k: nat, block: RSBlock, offset: nat)
    returns (r: Result<seq<Slot>>, dc: seq<Slot>)
    requires math.Valid() && ValidBlocks(rsBlocks)
    requires k < |rsBlocks| && block == rsBlocks[k] && offset == Total(DataCounts(rsBlocks)[..k])
    ensures r.Throws? <==> BadBlock(buffer, rsBlocks, k)
    ensures |dc| == block.dataCount
    ensures r.Ok? ==> |r.value| == block.EcCount() && EncodesBlock(rsBlocks, buffer, dc, r.value, k)
  {
    hide Codeword, AllZero;
    var bytes := new Byte[block.dataCount];
    for i := 0 to block.dataCount
      invariant forall j :: 0 <= j < i ==> bytes[j] == ByteAt(buffer, offset + j)
    {
      bytes[i] := ByteAt(buffer, i + offset);
    }
    var data := bytes[..];
    assert data == BlockData(buffer, rsBlocks, k);
    dc := seq(block.dataCount, i requires 0 <= i < block.dataCount => Value(data[i]));
    assert Reads(dc) == data;
    r := CheckBytes(math, data, block.EcCount());
    if r.Ok? {
      CodewordLength(data, Reads(r.value), block.EcCount());
    }
  }

  method TotalCodeCount(rsBlocks: seq<RSBlock>) returns (n: nat)
    ensures n == Total(TotalCounts(rsBlocks))
  {
    n := 0;
    for i := 0 to |rsBlocks|
      invariant n == Total(TotalCounts(rsBlocks)[..i])
    {
      TotalPrefix(TotalCounts(rsBlocks), i);
      n := n + rsBlocks[i].totalCount;
    }
    assert TotalCounts(rsBlocks)[..|rsBlocks|] == TotalCounts(rsBlocks);
  }

  /** The final codeword sequence: the data bytes of all blocks interleaved, then their check
      bytes interleaved, one slot for every codeword. */
  method CreateBytes(math: QRMath, buffer: seq<Byte>, rsBlocks: seq<RSBlock>)
    returns (r: Result<seq<Slot>>, ghost dcdata: seq<seq<Slot>>, ghost ecdata: seq<seq<Slot>>)
    requires math.Valid() && ValidBlocks(rsBlocks)
    ensures r.Throws? <==> exists k :: 0 <= k < |rsBlocks| && BadBlock(buffer, rsBlocks, k)
    ensures r.Ok? ==> Encodes(rsBlocks, buffer, dcdata, ecdata)
    ensures r.Ok? ==> r.value == Interleave(dcdata) + Interleave(ecdata)
    ensures r.Ok? ==> |r.value| == Total(TotalCounts(rsBlocks))
  {
    hide EncodesBlock, BadBlock, Interleave, Lengths;
    var offset, maxDcCount, maxEcCount := 0, 0, 0;
    var dc: seq<seq<Slot>>, ec: seq<seq<Slot>> := [], [];
    for k := 0 to |rsBlocks|
      invariant |dc| == |ec| == k
      invariant offset == Total(DataCounts(rsBlocks)[..k])
      invariant maxDcCount == MaxLength(dc) && maxEcCount == MaxLength(ec)
      invariant forall j :: 0 <= j < k ==> EncodesBlock(rsBlocks, buffer, dc[j], ec[j], j)
      invariant forall j :: 0 <= j < k ==> !BadBlock(buffer, rsBlocks, j)
    {
      var check, slots := EncodeBlock(math, buffer, rsBlocks, k, rsBlocks[k], offset);
      if check.Throws? {
        return Throws, [], [];
      }
      TotalPrefix(DataCounts(rsBlocks), k);
      offset := offset + rsBlocks[k].dataCount;
      maxDcCount := Max(maxDcCount, rsBlocks[k].dataCount);
      maxEcCount := Max(maxEcCount, rsBlocks[k].EcCount());
      MaxLengthAppend(dc, slots);
      MaxLengthAppend(ec, check.value);
      dc, ec := dc + [slots], ec + [check.value];
    }
    LengthsTotal(rsBlocks, buffer, dc, ec);
    InterleaveLength(dc);
    InterleaveLength(ec);
    var totalCodeCount := TotalCodeCount(rsBlocks);
    var data := new Slot[totalCodeCount](_ => Hole);
    var index := Spread(dc, maxDcCount, data, 0);
    index := Spread(ec, maxEcCount, data, index);
    assert data[..] == data[..index] == Interleave(dc) + Interleave(ec);
    r, dcdata, ecdata := Ok(data[..]), dc, ec;
  }

  lemma {:induction false} CodewordLength(data: seq<Byte>, check: seq<Byte>, n: nat)
    requires Codeword(data, check, n)
    ensures |check| == n
  {
  }

  /** Data bytes and check bytes together make up the codewords. */
  lemma {:induction false} LengthsTotal(
      rsBlocks: seq<RSBlock>, buffer: seq<Byte>, dc: seq<seq<Slot>>, ec: seq<seq<Slot>>)
    requires ValidBlocks(rsBlocks) && Encodes(rsBlocks, buffer, dc, ec)
    ensures Total(Lengths(dc)) + Total(Lengths(ec)) == Total(TotalCounts(rsBlocks))
  {
    hide Codeword, BlockData, Reads;
    forall r | 0 <= r < |rsBlocks|
      ensures TotalCounts(rsBlocks)[r] == Lengths(dc)[r] + Lengths(ec)[r]
    {
      assert EncodesBlock(rsBlocks, buffer, dc[r], ec[r], r);
      CodewordLength(Reads(dc[r]), Reads(ec[r]), rsBlocks[r].EcCount());
    }
    TotalsAdd(Lengths(dc), Lengths(ec), TotalCounts(rsBlocks));
  }

  /** Writes one segment: mode indicator, length field, bytes. */
  method WriteSegment(buffer: QRBitBuffer, s: Segment, width: nat)
    requires buffer.Valid() && width <= 16 && |s.data| < 0x1_0000_0000
    modifies buffer
    ensures buffer.Valid() && buffer.Bits() == old(buffer.Bits()) + SegmentBits(s, width)
  {
    hide BitsOf;
    buffer.Put(s.mode, 4);
    buffer.Put(|s.data|, width);
    ghost var before := buffer.Bits();
    for i := 0 to |s.data|
      invariant buffer.Valid() && buffer.Bits() == before + BytesBits(s.data[..i])
    {
      assert s.data[..i + 1][..i] == s.data[..i];
      buffer.Put(s.data[i], 8);
    }
    assert s.data[..|s.data|] == s.data;
  }

  /** Zeros up to a whole byte. */
  method AlignBuffer(buffer: QRBitBuffer)
    requires buffer.Valid()
    modifies buffer
    ensures buffer.Valid()
    ensures buffer.Bits() == old(buffer.Bits()) +
            Clear(if old(buffer.length) % 8 == 0 then 0 else 8 - old(buffer.length) % 8)
  {
    ghost var t := buffer.Bits();
    ghost var n := if |t| % 8 == 0 then 0 else 8 - |t| % 8;
    assert (|t| + n) % 8 == 0;
    while buffer.length % 8 != 0
      invariant buffer.Valid() && |t| <= buffer.length <= |t| + n
      invariant buffer.Bits() == t + Clear(buffer.length - |t|)
      decreases |t| + n - buffer.length
    {
      buffer.PutBit(false);
    }
  }

  lemma {:induction false} PaddedIs(bits: seq<bool>, capacity: nat)
    ensures var t := if |bits| + 4 <= capacity then bits + Clear(4) else bits;
        Padded(bits, capacity) == PadBytes(t + Clear(if |t| % 8 == 0 then 0 else 8 - |t| % 8), capacity, PAD0)
  {
    hide PadBytes, Clear;
  }

  lemma {:induction false} AlignedFits(n: nat, capacity: nat)
    requires n <= capacity && capacity % 8 == 0
    ensures n + (if n % 8 == 0 then 0 else 8 - n % 8) <= capacity
  {
  }

  /** Terminator and padding, up to the capacity. */
  method PadBuffer(buffer: QRBitBuffer, capacity: nat)
    requires buffer.Valid() && buffer.length <= capacity && capacity % 8 == 0
    modifies buffer
    ensures buffer.Valid() && buffer.Bits() == Padded(old(buffer.Bits()), capacity)
  {
    ghost var bits := buffer.Bits();
    PaddedIs(bits, capacity);
    hide *;
    if buffer.length + 4 <= capacity {
      ClearBits(4);
      buffer.Put(0, 4);
    }
    AlignedFits(buffer.length, capacity);
    AlignBuffer(buffer);
    PadWithBytes(buffer, capacity);
  }

  method PadWithBytes(buffer: QRBitBuffer, capacity: nat)
    requires buffer.Valid() && buffer.length <= capacity
    modifies buffer
    ensures buffer.Valid() && buffer.Bits() == PadBytes(old(buffer.Bits()), capacity, PAD0)
  {
    hide BitsOf;
    while true
      invariant buffer.Valid()
      invariant PadBytes(buffer.Bits(), capacity, PAD0) == PadBytes(old(buffer.Bits()), capacity, PAD0)
      decreases capacity - buffer.length
    {
      if buffer.length >= capacity {
        break;
      }
      buffer.Put(PAD0, 8);
      if buffer.length >= capacity {
        break;
      }
      buffer.Put(PAD1, 8);
    }
  }

  lemma {:induction false} ClearBits(n: nat)
    ensures BitsOf(0, n) == Clear(n)
  {
    forall i | 0 <= i < n
      ensures !BitsOf(0, n)[i]
    {
      ZeroBits(n - 1 - i);
    }
  }

  /** A full buffer is exactly the bits of its bytes. */
  lemma {:induction false} BufferBytes(buffer: seq<Byte>, length: nat)
    requires Holds(buffer, length) && length == 8 * |buffer|
    ensures BitList(buffer, length) == BytesBits(buffer)
  {
    hide TestBit;
    forall i | 0 <= i < length
      ensures BytesBits(buffer)[i] == BitAt(buffer, i)
    {
      var k, b := i / 8, BytesBits(buffer);
      BytesBitsAt(buffer, k);
      assert b[8 * k..8 * k + 8][i % 8] == b[8 * k + i % 8] == b[i];
      assert BitsOf(buffer[k], 8)[i % 8] == TestBit(buffer[k], 7 - i % 8);
    }
  }

  /** From the data list to the final codewords. It throws on an unknown mode or version, on
      data that does not fit, and on a block error correction throws on. */
  method CreateData(math: QRMath, version: int, rsBlocks: seq<RSBlock>, dataList: seq<Segment>)
    returns (r: Result<seq<Slot>>, ghost bytes: seq<Byte>, ghost dcdata: seq<seq<Slot>>, ghost ecdata: seq<seq<Slot>>)
    requires math.Valid() && ValidBlocks(rsBlocks)
    requires forall i :: 0 <= i < |dataList| ==> |dataList[i].data| < 0x1_0000_0000
    ensures !Writable(version, dataList) ==> r.Throws?
    ensures Writable(version, dataList) ==>
        (r.Throws? <==>
          || |ListBits(version, dataList)| > 8 * Total(DataCounts(rsBlocks))
          || exists k :: 0 <= k < |rsBlocks| && BadBlock(bytes, rsBlocks, k))
    ensures Writable(version, dataList) && |ListBits(version, dataList)| <= 8 * Total(DataCounts(rsBlocks)) ==>
        BytesBits(bytes) == Padded(ListBits(version, dataList), 8 * Total(DataCounts(rsBlocks)))
    ensures r.Ok? ==> |bytes| == Total(DataCounts(rsBlocks)) && Encodes(rsBlocks, bytes, dcdata, ecdata)
    ensures r.Ok? ==> r.value == Interleave(dcdata) + Interleave(ecdata) && |r.value| == Total(TotalCounts(rsBlocks))
  {
    hide SegmentBits, GetLengthInBits, Encodes, Interleave, BadBlock, Padded, BytesBits, BitAt;
    r, bytes, dcdata, ecdata := Throws, [], [], [];
    var buffer := new QRBitBuffer();
    for i := 0 to |dataList|
      invariant fresh(buffer) && buffer.Valid()
      invariant Writable(version, dataList[..i])
      invariant buffer.Bits() == ListBits(version, dataList[..i])
    {
      var data := dataList[i];
      var width := GetLengthInBits(data.mode, version);
      if width.Throws? {
        assert !Writable(version, dataList);
        return;
      }
      WriteSegment(buffer, data, width.value);
      ListBitsAppend(version, dataList[..i], data);
      assert dataList[..i + 1] == dataList[..i] + [data];
    }
    assert dataList[..|dataList|] == dataList;
    var totalDataCount := 0;
    for k := 0 to |rsBlocks|
      invariant totalDataCount == Total(DataCounts(rsBlocks)[..k])
      invariant fresh(buffer) && buffer.Valid() && buffer.Bits() == ListBits(version, dataList)
    {
      TotalPrefix(DataCounts(rsBlocks), k);
      totalDataCount := totalDataCount + rsBlocks[k].dataCount;
    }
    assert DataCounts(rsBlocks)[..|rsBlocks|] == DataCounts(rsBlocks);
    if buffer.length > totalDataCount * 8 {
      return;
    }
    PaddedShape(buffer.Bits(), totalDataCount * 8);
    PadBuffer(buffer, totalDataCount * 8);
    bytes := buffer.buffer;
    BufferBytes(buffer.buffer, buffer.length);
    r, dcdata, ecdata := CreateBytes(math, buffer.buffer, rsBlocks);
  }

  lemma {:induction false} ListBitsAppend(version: int, list: seq<Segment>, s: Segment)
    requires Writable(version, list) && GetLengthInBits(s.mode, version).Ok?
    ensures Writable(version, list + [s])
    ensures ListBits(version, list + [s]) ==
            ListBits(version, list) + SegmentBits(s, GetLengthInBits(s.mode, version).value)
  {
    hide SegmentBits, GetLengthInBits;
    if list != [] {
      ListBitsAppend(version, list[1..], s);
      assert (list + [s])[1..] == list[1..] + [s];
    } else {
      assert [s][1..] == [];
    }
  }

  // ---- reading it all back ----

  lemma {:induction false} BlockDataSlice(buffer: seq<Byte>, rsBlocks: seq<RSBlock>, r: nat)
    requires r < |rsBlocks| && |buffer| == Total(DataCounts(rsBlocks))
    ensures Total(DataCounts(rsBlocks)[..r]) <= Total(DataCounts(rsBlocks)[..r + 1]) <= |buffer|
    ensures BlockData(buffer, rsBlocks, r) ==
            buffer[Total(DataCounts(rsBlocks)[..r])..Total(DataCounts(rsBlocks)[..r + 1])]
  {
    TotalPrefix(DataCounts(rsBlocks), r);
    TotalMonotone(DataCounts(rsBlocks), r + 1);
    var from, to := Total(DataCounts(rsBlocks)[..r]), Total(DataCounts(rsBlocks)[..r + 1]);
    forall i | 0 <= i < to - from
      ensures BlockData(buffer, rsBlocks, r)[i] == buffer[from..to][i]
    {
    }
  }

  /** The data blocks, one after the other, are the buffer. */
  lemma {:induction false} ConcatData(
      rsBlocks: seq<RSBlock>, bytes: seq<Byte>, dc: seq<seq<Slot>>, ec: seq<seq<Slot>>, k: nat)
    requires ValidBlocks(rsBlocks) && Encodes(rsBlocks, bytes, dc, ec) && k <= |rsBlocks|
    requires |bytes| == Total(DataCounts(rsBlocks))
    ensures Total(DataCounts(rsBlocks)[..k]) <= |bytes|
    ensures Reads(Concat(dc[..k])) == bytes[..Total(DataCounts(rsBlocks)[..k])]
  {
    hide Codeword, BlockData, DataCounts;
    TotalMonotone(DataCounts(rsBlocks), k);
    if k > 0 {
      ConcatData(rsBlocks, bytes, dc, ec, k - 1);
      BlockDataSlice(bytes, rsBlocks, k - 1);
      assert dc[..k][..k - 1] == dc[..k - 1];
      assert EncodesBlock(rsBlocks, bytes, dc[k - 1], ec[k - 1], k - 1);
      assert Reads(Concat(dc[..k])) == Reads(Concat(dc[..k - 1])) + Reads(dc[k - 1]);
    }
  }

  lemma {:induction false} TotalMonotone(n: seq<nat>, k: nat)
    requires k <= |n|
    ensures Total(n[..k]) <= Total(n)
    decreases |n|
  {
    if k < |n| {
      TotalMonotone(n[..|n| - 1], k);
      assert n[..|n| - 1][..k] == n[..k];
    } else {
      assert n[..k] == n;
    }
  }

  /** What a reader of the codewords does: de-interleave the data part, string the blocks
      together, and take the segments off the resulting bits. */
  ghost function ReadCodewords(codewords: seq<Slot>, rsBlocks: seq<RSBlock>, version: int): seq<Reading>
    requires |codewords| >= Total(DataCounts(rsBlocks))
  {
    var counts := DataCounts(rsBlocks);
    ReadSegments(BytesBits(Reads(Concat(Deinterleave(counts, codewords[..Total(counts)])))), version)
  }

  lemma {:induction false} EncodedLengths(
      rsBlocks: seq<RSBlock>, bytes: seq<Byte>, dc: seq<seq<Slot>>, ec: seq<seq<Slot>>)
    requires ValidBlocks(rsBlocks) && Encodes(rsBlocks, bytes, dc, ec)
    ensures Lengths(dc) == DataCounts(rsBlocks)
  {
    hide Codeword;
    forall r | 0 <= r < |rsBlocks|
      ensures Lengths(dc)[r] == DataCounts(rsBlocks)[r]
    {
      assert EncodesBlock(rsBlocks, bytes, dc[r], ec[r], r);
    }
  }

  /** De-interleaving the codewords gives the buffer back. */
  lemma {:induction false} BufferReadBack(
      rsBlocks: seq<RSBlock>, bytes: seq<Byte>, dc: seq<seq<Slot>>, ec: seq<seq<Slot>>)
    requires ValidBlocks(rsBlocks) && Encodes(rsBlocks, bytes, dc, ec)
    requires |bytes| == Total(DataCounts(rsBlocks))
    ensures |Interleave(dc)| == |bytes|
    ensures Reads(Concat(Deinterleave(DataCounts(rsBlocks), (Interleave(dc) + Interleave(ec))[..|bytes|]))) == bytes
  {
    var counts := DataCounts(rsBlocks);
    assert counts[..|rsBlocks|] == counts && dc[..|rsBlocks|] == dc;
    hide EncodesBlock, Lengths, Total, Interleave, Deinterleave, DataCounts, Concat, Reads;
    EncodedLengths(rsBlocks, bytes, dc, ec);
    InterleaveRoundTrip(dc);
    ConcatData(rsBlocks, bytes, dc, ec, |rsBlocks|);
    assert (Interleave(dc) + Interleave(ec))[..|bytes|] == Interleave(dc);
  }

  /** The data list survives createData exactly when every length fits its length field. */
  lemma {:induction false} CodewordsRoundTrip(
      version: int, list: seq<Segment>, rsBlocks: seq<RSBlock>, bytes: seq<Byte>,
      dc: seq<seq<Slot>>, ec: seq<seq<Slot>>)
    requires ValidBlocks(rsBlocks) && Encodes(rsBlocks, bytes, dc, ec)
    requires Writable(version, list) && |bytes| == Total(DataCounts(rsBlocks))
    requires |ListBits(version, list)| <= 8 * |bytes|
    requires BytesBits(bytes) == Padded(ListBits(version, list), 8 * |bytes|)
    ensures |Interleave(dc)| == |bytes|
    ensures ReadCodewords(Interleave(dc) + Interleave(ec), rsBlocks, version) == AsReadings(list) <==>
            LengthsFit(version, list)
  {
    hide Encodes, Lengths, Total, Interleave, Deinterleave, DataCounts, Concat, Reads;
    hide Padded, ListBits, ReadSegments, AsReadings, LengthsFit, Writable, BytesBits;
    BufferReadBack(rsBlocks, bytes, dc, ec);
    DataRoundTrip(version, list, 8 * |bytes|);
  }
}
