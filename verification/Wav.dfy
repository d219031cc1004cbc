/** The recorder's WAV format: quantised samples, little-endian fields and the 44-byte header. */
module Wav {

  import opened Arithmetic
  import opened Bits
  import opened Sequences

  // ---- samples ----

  function Clamp(x: real): real {
    var low := if x < 1.0 then x else 1.0;
    if low > -1.0 then low else -1.0
  }

  /** What storing a number as an integer keeps of it. */
  function Truncate(x: real): int {
    if x < 0.0 then -(-x).Floor else x.Floor
  }

  function Quantise(x: real): int {
    var s := Clamp(x);
    Truncate(if s < 0.0 then s * 32768.0 else s * 32767.0)
  }

  lemma {:induction false} TruncateMonotone(x: real, y: real)
    requires x <= y
    ensures Truncate(x) <= Truncate(y)
  {
  }

  /** Every sample fits 16 bits, louder input never gives a smaller sample, and the ends of the
      scale are reached exactly. */
  lemma {:induction false} QuantiseFits(x: real, y: real)
    ensures -32768 <= Quantise(x) <= 32767
    ensures x <= y ==> Quantise(x) <= Quantise(y)
    ensures Quantise(x) == 32767 <==> x >= 1.0
    ensures Quantise(x) == -32768 <==> x <= -1.0
  {
    var s, t := Clamp(x), Clamp(y);
    var p, q := if s < 0.0 then s * 32768.0 else s * 32767.0, if t < 0.0 then t * 32768.0 else t * 32767.0;
    TruncateMonotone(-32768.0, p);
    TruncateMonotone(p, 32767.0);
    assert Truncate(-32768.0) == -32768 && Truncate(32767.0) == 32767;
    if x <= y {
      TruncateMonotone(p, q);
    }
  }

  /** The 16-bit number for a sample: the scale's ends from 1 and from -1 on; in between the whole number
      next to 32767 x or 32768 x, on the side of zero. */
  ghost predicate Near(q: int, x: real) {
    if x >= 1.0 then q == 32767
    else if x >= 0.0 then x * 32767.0 - 1.0 < q as real <= x * 32767.0
    else if x > -1.0 then x * 32768.0 <= q as real < x * 32768.0 + 1.0
    else q == -32768
  }

  /** That number is the one stored, and less than one step off. */
  lemma {:induction false} QuantiseNear(q: int, x: real)
    ensures q == Quantise(x) <==> Near(q, x)
    ensures 0.0 <= x <= 1.0 ==> -1.0 < Quantise(x) as real - x * 32767.0 <= 0.0
    ensures -1.0 <= x <= 0.0 ==> 0.0 <= Quantise(x) as real - x * 32768.0 < 1.0
  {
    var y := Clamp(x);
    FloorIs(q, y * 32767.0);
    FloorIs(-q, -(y * 32768.0));
  }

  lemma {:induction false} FloorIs(q: int, y: real)
    ensures q == y.Floor <==> y - 1.0 < q as real <= y
  {
  }

  // ---- little-endian numbers ----

  function Power(n: nat): (r: nat)
    ensures r > 0
  {
    if n == 0 then 1 else 256 * Power(n - 1)
  }

  lemma {:induction false} PowerValues()
    ensures Power(2) == 0x10000 && Power(4) == 0x1_0000_0000
  {
    assert Power(0) == 1 && Power(1) == 256;
    assert Power(3) == 0x100_0000;
  }

  /** The n low bytes of v, lowest first. */
  function LittleEndian(v: int, n: nat): (bs: seq<Byte>)
    ensures |bs| == n
    decreases n
  {
    if n == 0 then [] else [(v % 256) as Byte] + LittleEndian(v / 256, n - 1)
  }

  function Unsigned(bs: seq<Byte>): nat {
    if bs == [] then 0 else bs[0] + 256 * Unsigned(bs[1..])
  }

  /** A reader's view of two and of four bytes of a file. */
  function Word(file: seq<Byte>, at: nat): nat
    requires at + 2 <= |file|
  {
    var low: nat, high: nat := file[at], file[at + 1];
    low + 0x100 * high
  }

  function Long(file: seq<Byte>, at: nat): nat
    requires at + 4 <= |file|
  {
    Word(file, at) + 0x1_0000 * Word(file, at + 2)
  }

  lemma {:induction false} UnsignedWord(file: seq<Byte>, at: nat)
    requires at + 2 <= |file|
    ensures Unsigned(file[at..at + 2]) == Word(file, at)
  {
    var bs := file[at..at + 2];
    var rest := bs[1..];
    assert |rest| == 1 && rest[1..] == [];
    assert Unsigned(rest[1..]) == 0;
    assert Unsigned(rest) == bs[1];
  }

  lemma {:induction false} UnsignedLong(file: seq<Byte>, at: nat)
    requires at + 4 <= |file|
    ensures Unsigned(file[at..at + 4]) == Long(file, at)
  {
    var bs := file[at..at + 4];
    assert bs[1..][1..] == file[at + 2..at + 4];
    UnsignedWord(file, at + 2);
  }

  lemma {:induction false} ModTimes256(v: int, m: nat)
    requires m > 0
    ensures v % (256 * m) == v % 256 + 256 * (v / 256 % m)
  {
    var q, r := v / 256, v % 256;
    DivMod(q, m);
    var k, j := q / m, q % m;
    Regroup(k, m, 256);
    Remainder(v, 256 * m, k, 256 * j + r);
  }

  lemma {:induction false} LittleEndianReads(v: int, n: nat)
    ensures Unsigned(LittleEndian(v, n)) == v % Power(n)
    decreases n
  {
    if n > 0 {
      LittleEndianReads(v / 256, n - 1);
      assert LittleEndian(v, n)[1..] == LittleEndian(v / 256, n - 1);
      ModTimes256(v, Power(n - 1));
    }
  }

  lemma {:induction false} SignedReads(v: int)
    requires -0x8000 <= v < 0x8000
    ensures Unsigned(LittleEndian(v, 2)) == if v < 0 then v + 0x10000 else v
  {
    LittleEndianReads(v, 2);
    PowerValues();
  }

  // ---- the file ----

  function Codes(s: string): (bs: seq<Byte>)
    ensures |bs| == |s|
  {
    seq(|s|, i requires 0 <= i < |s| => ((s[i] as int) % 256) as Byte)
  }

  function Riff(count: nat): (bs: seq<Byte>)
    ensures |bs| == 12
  {
    Codes("RIFF") + LittleEndian(36 + count * 2, 4) + Codes("WAVE")
  }

  /** The start of the format chunk: its length, the code of raw samples and the channel count. */
  function PcmFormat(numChannels: nat): (bs: seq<Byte>)
    ensures |bs| == 12
  {
    Codes("fmt ") + LittleEndian(16, 4) + LittleEndian(1, 2) + LittleEndian(numChannels, 2)
  }

  function Format(numChannels: nat, sampleRate: nat): (bs: seq<Byte>)
    ensures |bs| == 24
  {
    PcmFormat(numChannels) + LittleEndian(sampleRate, 4) + LittleEndian(sampleRate * 4, 4)
    + LittleEndian(numChannels * 2, 2) + LittleEndian(16, 2)
  }

  function Header(numChannels: nat, sampleRate: nat, count: nat): (bs: seq<Byte>)
    ensures |bs| == 44
  {
    Riff(count) + Format(numChannels, sampleRate) + Codes("data") + LittleEndian(count * 2, 4)
  }

  function Data(samples: seq<real>): (bs: seq<Byte>)
    ensures |bs| == 2 * |samples|
  {
    if samples == [] then []
    else Data(samples[..|samples| - 1]) + LittleEndian(Quantise(samples[|samples| - 1]), 2)
  }

  lemma {:induction false} NoData()
    ensures Data([]) == []
  {
  }

  lemma {:induction false} DataStep(samples: seq<real>, x: real)
    ensures Data(samples + [x]) == Data(samples) + LittleEndian(Quantise(x), 2)
  {
    assert (samples + [x])[..|samples|] == samples;
    hide LittleEndian, Quantise;
  }

  function File(numChannels: nat, sampleRate: nat, samples: seq<real>): (bs: seq<Byte>)
    ensures |bs| == 44 + 2 * |samples|
  {
    Header(numChannels, sampleRate, |samples|) + Data(samples)
  }

  /** A reader's view of the file: sample i of the data chunk. */
  function SampleAt(file: seq<Byte>, i: nat): int
    requires 44 + 2 * i + 2 <= |file|
  {
    var u := Word(file, 44 + 2 * i);
    if u < 0x8000 then u else u - 0x10000
  }

  lemma {:induction false} DataAt(samples: seq<real>, i: nat)
    requires i < |samples|
    ensures Data(samples)[2 * i..2 * i + 2] == LittleEndian(Quantise(samples[i]), 2)
  {
    hide LittleEndian, Quantise;
    var n := |samples| - 1;
    var front, last := samples[..n], LittleEndian(Quantise(samples[n]), 2);
    assert Data(samples) == Data(front) + last;
    if i < n {
      DataAt(front, i);
    }
    hide *;
    assert |Data(front)| == 2 * n && |last| == 2;
    SliceOfSum(Data(front), last, if i < n then 2 * i else 0, if i < n then 2 * i + 2 else 0);
  }

  /** Reading a sample back gives the 16-bit number for it. */
  lemma {:induction false} FileSampleAt(numChannels: nat, sampleRate: nat, samples: seq<real>, i: nat)
    requires i < |samples|
    ensures Near(SampleAt(File(numChannels, sampleRate, samples), i), samples[i])
  {
    var f := File(numChannels, sampleRate, samples);
    hide Header, Quantise, LittleEndian, Word, Near;
    UnsignedWord(f, 44 + 2 * i);
    assert f[44 + 2 * i..44 + 2 * i + 2] == Data(samples)[2 * i..2 * i + 2];
    DataAt(samples, i);
    QuantiseFits(samples[i], samples[i]);
    SignedReads(Quantise(samples[i]));
    QuantiseNear(Quantise(samples[i]), samples[i]);
  }

  lemma {:induction false} HeaderLengths(numChannels: nat, sampleRate: nat, count: nat)
    ensures Header(numChannels, sampleRate, count)[4..8] == LittleEndian(36 + count * 2, 4)
    ensures Header(numChannels, sampleRate, count)[40..44] == LittleEndian(count * 2, 4)
  {
    hide LittleEndian, Codes, Format;
    assert Riff(count)[4..8] == LittleEndian(36 + count * 2, 4);
    hide Riff;
    assert Header(numChannels, sampleRate, count)[4..8] == Riff(count)[4..8];
  }

  lemma {:induction false} FitsIn32(v: nat)
    ensures Unsigned(LittleEndian(v, 4)) == v <==> v < 0x1_0000_0000
  {
    LittleEndianReads(v, 4);
    PowerValues();
    hide *;
  }

  lemma {:induction false} FileStarts(numChannels: nat, sampleRate: nat, samples: seq<real>)
    ensures File(numChannels, sampleRate, samples)[0..44] == Header(numChannels, sampleRate, |samples|)
  {
    hide Header, Data;
  }

  /** Both length fields, read as 32-bit numbers, are right exactly while the file is short enough
      for them. */
  lemma {:induction false} FileLengths(numChannels: nat, sampleRate: nat, samples: seq<real>)
    ensures var f := File(numChannels, sampleRate, samples);
            && (Long(f, 4) == |f| - 8 <==> |f| - 8 < 0x1_0000_0000)
            && (Long(f, 40) == |f| - 44 <==> |f| - 44 < 0x1_0000_0000)
  {
    hide *;
    var f, n := File(numChannels, sampleRate, samples), |samples|;
    FileStarts(numChannels, sampleRate, samples);
    HeaderLengths(numChannels, sampleRate, n);
    SliceOfSlice(f, 0, 44, 4, 8);
    SliceOfSlice(f, 0, 44, 40, 44);
    FitsIn32(36 + n * 2);
    FitsIn32(n * 2);
    UnsignedLong(f, 4);
    UnsignedLong(f, 40);
  }

  /** What a reader finds in the header: the identifiers, raw samples, the channel count, the rates,
      the block size and 16 bits a sample. */
  ghost predicate Reads(h: seq<Byte>, numChannels: nat, sampleRate: nat)
    requires |h| == 44
  {
    && h[0..4] == [0x52, 0x49, 0x46, 0x46] && h[8..12] == [0x57, 0x41, 0x56, 0x45]
    && h[12..16] == [0x66, 0x6d, 0x74, 0x20] && h[36..40] == [0x64, 0x61, 0x74, 0x61]
    && Long(h, 16) == 16 && Word(h, 20) == 1 && Word(h, 22) == numChannels
    && Long(h, 24) == sampleRate && Long(h, 28) == 4 * sampleRate
    && Word(h, 32) == 2 * numChannels && Word(h, 34) == 16
  }

  /** The fields as they are laid down. */
  ghost predicate Laid(h: seq<Byte>, numChannels: nat, sampleRate: nat)
    requires |h| == 44
  {
    && h[0..4] == Codes("RIFF") && h[8..12] == Codes("WAVE") && h[12..16] == Codes("fmt ") && h[36..40] == Codes("data")
    && h[16..20] == LittleEndian(16, 4) && h[20..22] == LittleEndian(1, 2) && h[22..24] == LittleEndian(numChannels, 2)
    && h[24..28] == LittleEndian(sampleRate, 4) && h[28..32] == LittleEndian(sampleRate * 4, 4)
    && h[32..34] == LittleEndian(numChannels * 2, 2) && h[34..36] == LittleEndian(16, 2)
  }

  /** The identifiers as character codes. */
  lemma {:induction false} FourCodes()
    ensures Codes("RIFF") == [0x52, 0x49, 0x46, 0x46] && Codes("WAVE") == [0x57, 0x41, 0x56, 0x45]
    ensures Codes("fmt ") == [0x66, 0x6d, 0x74, 0x20] && Codes("data") == [0x64, 0x61, 0x74, 0x61]
  {
  }

  lemma {:induction false} LaidReads(h: seq<Byte>, numChannels: nat, sampleRate: nat)
    requires |h| == 44 && Laid(h, numChannels, sampleRate)
    requires numChannels * 2 < 0x1_0000 && sampleRate * 4 < 0x1_0000_0000
    ensures Reads(h, numChannels, sampleRate)
  {
    FourCodes();
    hide LittleEndian, Unsigned, Codes, Word, Long;
    UnsignedLong(h, 16);
    UnsignedWord(h, 20);
    UnsignedWord(h, 22);
    UnsignedLong(h, 24);
    UnsignedLong(h, 28);
    UnsignedWord(h, 32);
    UnsignedWord(h, 34);
    FitsIn32(16);
    FitsIn16(1);
    FitsIn16(numChannels);
    FitsIn32(sampleRate);
    FitsIn32(sampleRate * 4);
    FitsIn16(numChannels * 2);
    FitsIn16(16);
  }

  lemma {:induction false} FileFields(numChannels: nat, sampleRate: nat, samples: seq<real>)
    requires numChannels * 2 < 0x1_0000 && sampleRate * 4 < 0x1_0000_0000
    ensures Reads(File(numChannels, sampleRate, samples)[0..44], numChannels, sampleRate)
  {
    hide *;
    FileStarts(numChannels, sampleRate, samples);
    FieldsOf(numChannels, sampleRate, |samples|);
    LaidReads(Header(numChannels, sampleRate, |samples|), numChannels, sampleRate);
  }

  lemma {:induction false} FitsIn16(v: nat)
    ensures Unsigned(LittleEndian(v, 2)) == v <==> v < 0x1_0000
  {
    LittleEndianReads(v, 2);
    PowerValues();
    hide *;
  }

  lemma {:induction false} FieldsOf(numChannels: nat, sampleRate: nat, count: nat)
    ensures Laid(Header(numChannels, sampleRate, count), numChannels, sampleRate)
  {
    RiffFields(count);
    FormatFields(numChannels, sampleRate);
    var h, f := Header(numChannels, sampleRate, count), Format(numChannels, sampleRate);
    hide Riff, Format, LittleEndian, Codes;
    assert h[0..12] == Riff(count) && h[12..36] == f && h[36..40] == Codes("data");
    hide Header;
    SliceOfSlice(h, 0, 12, 0, 4);
    SliceOfSlice(h, 0, 12, 8, 12);
    SliceOfSlice(h, 12, 36, 0, 4);
    SliceOfSlice(h, 12, 36, 4, 8);
    SliceOfSlice(h, 12, 36, 8, 10);
    SliceOfSlice(h, 12, 36, 10, 12);
    SliceOfSlice(h, 12, 36, 12, 16);
    SliceOfSlice(h, 12, 36, 16, 20);
    SliceOfSlice(h, 12, 36, 20, 22);
    SliceOfSlice(h, 12, 36, 22, 24);
  }

  lemma {:induction false} RiffFields(count: nat)
    ensures Riff(count)[0..4] == Codes("RIFF") && Riff(count)[8..12] == Codes("WAVE")
  {
    hide LittleEndian, Codes;
  }

  lemma {:induction false} FormatFields(numChannels: nat, sampleRate: nat)
    ensures var f := Format(numChannels, sampleRate);
            && f[0..4] == Codes("fmt ") && f[4..8] == LittleEndian(16, 4) && f[8..10] == LittleEndian(1, 2)
            && f[10..12] == LittleEndian(numChannels, 2) && f[12..16] == LittleEndian(sampleRate, 4)
            && f[16..20] == LittleEndian(sampleRate * 4, 4)
            && f[20..22] == LittleEndian(numChannels * 2, 2) && f[22..24] == LittleEndian(16, 2)
  {
    hide LittleEndian, Codes;
    var f, p := Format(numChannels, sampleRate), PcmFormat(numChannels);
    assert p[0..4] == Codes("fmt ") && p[4..8] == LittleEndian(16, 4) && p[8..10] == LittleEndian(1, 2);
    assert p[10..12] == LittleEndian(numChannels, 2);
    hide PcmFormat;
    assert f[0..12] == p;
    SliceOfSlice(f, 0, 12, 0, 4);
    SliceOfSlice(f, 0, 12, 4, 8);
    SliceOfSlice(f, 0, 12, 8, 10);
    SliceOfSlice(f, 0, 12, 10, 12);
  }
}
