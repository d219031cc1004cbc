/** The recorder's worker: chunks of samples pile up per channel until they are exported as a WAV
    file or cleared. */
module Recorder {

  import opened Arithmetic
  import opened Bits
  import opened Sequences
  import opened Wav
  import opened Wrappers

  type Samples = seq<real>

  // ---- specification ----

  function Silence(n: nat): Samples {
    seq(n, i => 0.0)
  }

  /** The chunks one after the other in an array of the given length, padded with zeros. */
  function Fit(chunks: seq<Samples>, length: nat): (r: Samples)
    requires |Concat(chunks)| <= length
    ensures |r| == length
  {
    Concat(chunks) + Silence(length - |Concat(chunks)|)
  }

  datatype State = State(recLength: nat, recBuffers: seq<seq<Samples>>)

  /** Every channel's chunks fit the counted length; the arrays to export exist. */
  ghost predicate Mergeable(s: State) {
    forall c :: 0 <= c < |s.recBuffers| ==> |Concat(s.recBuffers[c])| <= s.recLength
  }

  /** What goes into the file: both channels alternating if there are two, and the first otherwise. */
  ghost predicate Exports(s: State, out: Samples)
    requires |s.recBuffers| > 0 && Mergeable(s)
  {
    if |s.recBuffers| == 2 then
      && |out| == 2 * s.recLength
      && forall i :: 0 <= i < s.recLength ==>
           out[2 * i] == Fit(s.recBuffers[0], s.recLength)[i] && out[2 * i + 1] == Fit(s.recBuffers[1], s.recLength)[i]
    else out == Fit(s.recBuffers[0], s.recLength)
  }

  // ---- the worker ----

  class Worker {
    var recLength: nat
    var recBuffers: seq<seq<Samples>>
    const sampleRate: nat
    const numChannels: nat

    ghost predicate Valid()
      reads this
    {
      |recBuffers| == numChannels
    }

    function Contents(): State
      reads this
    {
      State(recLength, recBuffers)
    }

    constructor (sampleRate: nat, numChannels: nat)
      ensures Valid() && this.sampleRate == sampleRate && this.numChannels == numChannels
      ensures Contents() == Cleared(numChannels)
    {
      this.sampleRate, this.numChannels := sampleRate, numChannels;
      recLength, recBuffers := 0, [];
      new;
      InitBuffers();
    }

    method InitBuffers()
      requires recBuffers == []
      modifies this`recBuffers
      ensures recBuffers == Cleared(numChannels).recBuffers
    {
      for channel := 0 to numChannels
        invariant recBuffers == seq(channel, c => [])
      {
        recBuffers := recBuffers + [[]];
      }
    }

    method Record(inputBuffer: seq<Samples>)
      requires Valid() && numChannels <= |inputBuffer| && |inputBuffer| > 0
      modifies this
      ensures Valid() && Contents() == Recorded(old(Contents()), inputBuffer)
    {
      for channel := 0 to numChannels
        invariant Valid()
        invariant recLength == old(recLength)
        invariant forall c :: 0 <= c < numChannels ==>
                    recBuffers[c] == old(recBuffers)[c] + (if c < channel then [inputBuffer[c]] else [])
      {
        recBuffers := recBuffers[channel := recBuffers[channel] + [inputBuffer[channel]]];
      }
      recLength := recLength + |inputBuffer[0]|;
    }

    method Clear()
      requires Valid()
      modifies this
      ensures Valid() && Contents() == Cleared(numChannels)
    {
      recLength := 0;
      recBuffers := [];
      InitBuffers();
    }

    method OnMessage(m: Message)
      requires Valid() && WellFormed(m, numChannels)
      modifies this
      ensures Valid() && Contents() == Next(old(Contents()), m)
    {
      match m
      case Record(inputBuffer) => Record(inputBuffer);
      case Clear => Clear();
    }

    /** Setting a chunk at an offset where it does not fit throws. */
    static method MergeBuffers(recBuffers: seq<Samples>, recLength: nat) returns (r: Result<array<real>>)
      ensures r.Throws? <==> |Concat(recBuffers)| > recLength
      ensures r.Ok? ==> fresh(r.value) && r.value[..] == Fit(recBuffers, recLength)
    {
      var result := new real[recLength](i => 0.0);
      var offset := 0;
      for i := 0 to |recBuffers|
        invariant offset == |Concat(recBuffers[..i])| <= recLength
        invariant result[..] == Fit(recBuffers[..i], recLength)
      {
        var chunk := recBuffers[i];
        assert recBuffers[..i + 1][..i] == recBuffers[..i];
        if offset + |chunk| > recLength {
          ConcatGrows(recBuffers, i + 1);
          return Throws;
        }
        ghost var before := result[..];
        forall k | 0 <= k < |chunk| {
          result[offset + k] := chunk[k];
        }
        assert result[..] == before[..offset] + chunk + before[offset + |chunk|..];
        offset := offset + |chunk|;
      }
      assert recBuffers[..|recBuffers|] == recBuffers;
      return Ok(result);
    }

    static method InterleaveChannels(inputL: array<real>, inputR: array<real>) returns (result: array<real>)
      requires inputL.Length == inputR.Length
      ensures fresh(result) && result.Length == 2 * inputL.Length
      ensures forall i :: 0 <= i < inputL.Length ==> result[2 * i] == inputL[i] && result[2 * i + 1] == inputR[i]
    {
      var length := inputL.Length + inputR.Length;
      result := new real[length](i => 0.0);
      var index, inputIndex := 0, 0;
      while index < length
        invariant index == 2 * inputIndex && inputIndex <= inputL.Length
        invariant forall i :: 0 <= i < inputIndex ==> result[2 * i] == inputL[i] && result[2 * i + 1] == inputR[i]
      {
        result[index] := inputL[inputIndex];
        result[index + 1] := inputR[inputIndex];
        index, inputIndex := index + 2, inputIndex + 1;
      }
    }

    /** All channels as arrays of the counted length. */
    method GetBuffer() returns (r: Result<seq<array<real>>>)
      requires Valid()
      ensures r.Ok? <==> Mergeable(Contents())
      ensures r.Ok? ==> |r.value| == numChannels
                        && forall c :: 0 <= c < numChannels ==>
                             fresh(r.value[c]) && r.value[c][..] == Fit(recBuffers[c], recLength)
    {
      var buffers: seq<array<real>> := [];
      for channel := 0 to numChannels
        invariant |buffers| == channel
        invariant forall c :: 0 <= c < channel ==> |Concat(recBuffers[c])| <= recLength
        invariant forall c :: 0 <= c < channel ==> fresh(buffers[c]) && buffers[c][..] == Fit(recBuffers[c], recLength)
      {
        var merged := MergeBuffers(recBuffers[channel], recLength);
        if merged.Throws? {
          return Throws;
        }
        buffers := buffers + [merged.value];
      }
      return Ok(buffers);
    }

    // ---- bytes ----

    static method SetLittleEndian(view: array<Byte>, offset: nat, value: int, size: nat)
      requires offset + size <= view.Length
      modifies view
      ensures view[..offset + size] == old(view[..offset]) + LittleEndian(value, size)
    {
      var bytes := LittleEndian(value, size);
      forall k | 0 <= k < size {
        view[offset + k] := bytes[k];
      }
      assert view[..offset] == old(view[..offset]);
    }

    static method WriteString(view: array<Byte>, offset: nat, text: string)
      requires offset + |text| <= view.Length
      modifies view
      ensures view[..offset + |text|] == old(view[..offset]) + Codes(text)
    {
      for i := 0 to |text|
        invariant view[..offset + i] == old(view[..offset]) + Codes(text)[..i]
      {
        view[offset + i] := ((text[i] as int) % 256) as Byte;
      }
    }

    static method FloatTo16BitPCM(output: array<Byte>, start: nat, input: array<real>)
      requires start + 2 * input.Length <= output.Length
      modifies output
      ensures output[..start + 2 * input.Length] == old(output[..start]) + Data(input[..])
    {
      hide LittleEndian, Quantise, Data;
      var offset := start;
      assert input[..0] == [];
      NoData();
      for i := 0 to input.Length
        invariant offset == start + 2 * i
        invariant output[..offset] == old(output[..start]) + Data(input[..i])
      {
        DataStep(input[..i], input[i]);
        assert input[..i + 1] == input[..i] + [input[i]];
        SetLittleEndian(output, offset, Quantise(input[i]), 2);
        offset := offset + 2;
      }
      assert input[..input.Length] == input[..];
    }

    method WriteRiff(view: array<Byte>, count: nat)
      requires view.Length >= 12
      modifies view
      ensures view[..12] == Riff(count)
    {
      hide LittleEndian, Codes;
      WriteString(view, 0, "RIFF");
      SetLittleEndian(view, 4, 36 + count * 2, 4);
      WriteString(view, 8, "WAVE");
    }

    method WriteFormat(view: array<Byte>)
      requires view.Length >= 36
      modifies view
      ensures view[..36] == old(view[..12]) + Format(numChannels, sampleRate)
    {
      hide LittleEndian, Codes;
      WriteString(view, 12, "fmt ");
      SetLittleEndian(view, 16, 16, 4);
      SetLittleEndian(view, 20, 1, 2);
      SetLittleEndian(view, 22, numChannels, 2);
      assert view[..24] == old(view[..12]) + PcmFormat(numChannels);
      SetLittleEndian(view, 24, sampleRate, 4);
      SetLittleEndian(view, 28, sampleRate * 4, 4);
      SetLittleEndian(view, 32, numChannels * 2, 2);
      SetLittleEndian(view, 34, 16, 2);
    }

    method EncodeWAV(samples: array<real>) returns (view: array<Byte>)
      ensures fresh(view) && view[..] == File(numChannels, sampleRate, samples[..])
    {
      hide Data, LittleEndian, Codes, Riff, Format;
      view := new Byte[44 + samples.Length * 2](i => 0);
      WriteRiff(view, samples.Length);
      WriteFormat(view);
      WriteString(view, 36, "data");
      SetLittleEndian(view, 40, samples.Length * 2, 4);
      FloatTo16BitPCM(view, 44, samples);
      assert view[..44 + 2 * samples.Length] == view[..];
    }

    method ExportWAV() returns (r: Result<array<Byte>>)
      requires Valid()
      ensures r.Ok? <==> numChannels > 0 && Mergeable(Contents())
      ensures r.Ok? ==> exists out :: Exports(Contents(), out) && r.value[..] == File(numChannels, sampleRate, out)
    {
      var merged := GetBuffer();
      if merged.Throws? || numChannels == 0 {
        return Throws;
      }
      var buffers := merged.value;
      var interleaved;
      if numChannels == 2 {
        interleaved := InterleaveChannels(buffers[0], buffers[1]);
        assert forall i :: 0 <= i < recLength ==>
                 buffers[0][i] == buffers[0][..][i] && buffers[1][i] == buffers[1][..][i];
      } else {
        interleaved := buffers[0];
      }
      assert Exports(Contents(), interleaved[..]);
      var view := EncodeWAV(interleaved);
      return Ok(view);
    }
  }

  // ---- runs ----

  function Cleared(numChannels: nat): State {
    State(0, seq(numChannels, c => []))
  }

  function Recorded(s: State, inputBuffer: seq<Samples>): State
    requires |s.recBuffers| <= |inputBuffer| && |inputBuffer| > 0
  {
    State(s.recLength + |inputBuffer[0]|,
          seq(|s.recBuffers|, c requires 0 <= c < |s.recBuffers| => s.recBuffers[c] + [inputBuffer[c]]))
  }

  datatype Message = Record(inputBuffer: seq<Samples>) | Clear

  /** Chunks for every channel, all of the same length. */
  ghost predicate WellFormed(m: Message, numChannels: nat) {
    m.Record? ==>
      && numChannels <= |m.inputBuffer| && |m.inputBuffer| > 0
      && forall c :: 0 <= c < |m.inputBuffer| ==> |m.inputBuffer[c]| == |m.inputBuffer[0]|
  }

  ghost predicate AllWellFormed(ms: seq<Message>, numChannels: nat) {
    forall m :: m in ms ==> WellFormed(m, numChannels)
  }

  function Next(s: State, m: Message): State
    requires WellFormed(m, |s.recBuffers|)
  {
    match m
    case Record(inputBuffer) => Recorded(s, inputBuffer)
    case Clear => Cleared(|s.recBuffers|)
  }

  /** The worker's state after a run of messages. */
  function After(ms: seq<Message>, numChannels: nat): (s: State)
    requires AllWellFormed(ms, numChannels)
    ensures |s.recBuffers| == numChannels
  {
    if ms == [] then Cleared(numChannels)
    else
      assert WellFormed(ms[|ms| - 1], numChannels);
      Next(After(ms[..|ms| - 1], numChannels), ms[|ms| - 1])
  }

  /** Everything a channel received since the latest clear. */
  function Received(ms: seq<Message>, c: nat): Samples
    requires AllWellFormed(ms, c + 1)
  {
    if ms == [] then []
    else
      assert WellFormed(ms[|ms| - 1], c + 1);
      match ms[|ms| - 1]
      case Record(inputBuffer) => Received(ms[..|ms| - 1], c) + inputBuffer[c]
      case Clear => []
  }

  lemma {:induction false} RunKeepsEverything(ms: seq<Message>, numChannels: nat, c: nat)
    requires AllWellFormed(ms, numChannels) && c < numChannels
    ensures Concat(After(ms, numChannels).recBuffers[c]) == Received(ms, c)
    ensures |Received(ms, c)| == After(ms, numChannels).recLength
  {
    if ms != [] && ms[|ms| - 1].Record? {
      var front, input := ms[..|ms| - 1], ms[|ms| - 1].inputBuffer;
      RunKeepsEverything(front, numChannels, c);
      var s, t := After(front, numChannels), After(ms, numChannels);
      assert t.recBuffers[c][..|t.recBuffers[c]| - 1] == s.recBuffers[c];
      assert WellFormed(ms[|ms| - 1], numChannels);
    }
  }

  /** As many 16-bit numbers as samples, each the one for its sample. */
  ghost predicate AllNear(out: seq<int>, samples: Samples) {
    |out| == |samples| && forall i :: 0 <= i < |samples| ==> Near(out[i], samples[i])
  }

  lemma {:induction false} FrameInside(count: nat, n: nat, i: nat, c: nat)
    requires c < n && i < count / n
    ensures n * i + c < count
  {
    DivMod(count, n);
    AtMostProduct(i + 1, count / n, n);
  }

  /** A reader's view of the file, by its header: frames of one sample for each channel. */
  function Channel(file: seq<Byte>, numChannels: nat, c: nat): seq<int>
    requires c < numChannels && |file| >= 44
  {
    var count := (|file| - 44) / 2;
    seq(count / numChannels, i requires 0 <= i < count / numChannels =>
      FrameInside(count, numChannels, i, c);
      SampleAt(file, numChannels * i + c))
  }

  /** Every channel reads back as the samples it received, each within one step of the scale. */
  ghost predicate Faithful(file: seq<Byte>, ms: seq<Message>, numChannels: nat)
    requires AllWellFormed(ms, numChannels) && |file| >= 44
  {
    forall c :: 0 <= c < numChannels ==> ReadsBack(file, ms, numChannels, c)
  }

  ghost predicate ReadsBack(file: seq<Byte>, ms: seq<Message>, numChannels: nat, c: nat)
    requires AllWellFormed(ms, numChannels) && c < numChannels && |file| >= 44
  {
    FewerChannels(ms, numChannels, c + 1);
    AllNear(Channel(file, numChannels, c), Received(ms, c))
  }

  lemma {:induction false} FewerChannels(ms: seq<Message>, numChannels: nat, fewer: nat)
    requires AllWellFormed(ms, numChannels) && fewer <= numChannels
    ensures AllWellFormed(ms, fewer)
  {
  }

  /** After any run of recording and clearing the export goes through, and taking the file apart gives for
      every channel the samples received since the latest clear, in order and rounded to 16 bits towards zero, if
      and only if there are at most two channels or nothing was received. */
  lemma {:induction false} ExportedRun(ms: seq<Message>, numChannels: nat, sampleRate: nat, out: Samples)
    requires AllWellFormed(ms, numChannels) && numChannels > 0
    ensures Mergeable(After(ms, numChannels))
    ensures Exports(After(ms, numChannels), out) ==>
              (Faithful(File(numChannels, sampleRate, out), ms, numChannels) <==>
               numChannels <= 2 || After(ms, numChannels).recLength == 0)
  {
    var s := After(ms, numChannels);
    forall d | 0 <= d < numChannels
      ensures Concat(s.recBuffers[d]) == Received(ms, d) && |Received(ms, d)| == s.recLength
    {
      RunKeepsEverything(ms, numChannels, d);
    }
    if Exports(s, out) {
      if numChannels <= 2 {
        forall c | 0 <= c < numChannels
          ensures ReadsBack(File(numChannels, sampleRate, out), ms, numChannels, c)
        {
          SmallExport(ms, numChannels, sampleRate, out, c);
        }
      } else {
        forall c | 0 <= c < numChannels
          ensures ReadsBack(File(numChannels, sampleRate, out), ms, numChannels, c) <==> s.recLength == 0
        {
          LargeExport(ms, numChannels, sampleRate, out, c);
        }
        assert Faithful(File(numChannels, sampleRate, out), ms, numChannels) ==>
            ReadsBack(File(numChannels, sampleRate, out), ms, numChannels, 0);
      }
    }
  }

  /** One or two channels. */
  lemma {:induction false} SmallExport(ms: seq<Message>, numChannels: nat, sampleRate: nat, out: Samples, c: nat)
    requires AllWellFormed(ms, numChannels) && c < numChannels <= 2
    requires Mergeable(After(ms, numChannels)) && Exports(After(ms, numChannels), out)
    ensures ReadsBack(File(numChannels, sampleRate, out), ms, numChannels, c)
  {
    var s, received := After(ms, numChannels), Received(ms, c);
    forall d | 0 <= d < numChannels
      ensures Concat(s.recBuffers[d]) == Received(ms, d) && |Received(ms, d)| == s.recLength
    {
      RunKeepsEverything(ms, numChannels, d);
    }
    hide After, Received, AllWellFormed, Channel, AllNear, File;
    ExportsChannel(s, out, c);
    hide Exports, Mergeable, Concat;
    ChannelOf(numChannels, sampleRate, out, c, received);
  }

  /** More channels: the file holds the first one only, cut into frames that are too large. */
  lemma {:induction false} LargeExport(
      ms: seq<Message>, numChannels: nat, sampleRate: nat, out: Samples, c: nat)
    requires AllWellFormed(ms, numChannels) && numChannels >= 3 && c < numChannels
    requires Mergeable(After(ms, numChannels)) && Exports(After(ms, numChannels), out)
    ensures ReadsBack(File(numChannels, sampleRate, out), ms, numChannels, c) <==> After(ms, numChannels).recLength == 0
  {
    hide *;
    FewerChannels(ms, numChannels, c + 1);
    RunKeepsEverything(ms, numChannels, c);
    FirstChannelOnly(After(ms, numChannels), out);
    FramesTooLarge(File(numChannels, sampleRate, out), numChannels, c, Received(ms, c));
    ReadsBackIs(File(numChannels, sampleRate, out), ms, numChannels, c);
  }

  lemma {:induction false} ReadsBackIs(file: seq<Byte>, ms: seq<Message>, numChannels: nat, c: nat)
    requires AllWellFormed(ms, numChannels) && c < numChannels && |file| >= 44
    ensures AllWellFormed(ms, c + 1)
    ensures ReadsBack(file, ms, numChannels, c) <==> AllNear(Channel(file, numChannels, c), Received(ms, c))
  {
    hide Channel, AllNear, Received;
  }

  lemma {:induction false} FirstChannelOnly(s: State, out: Samples)
    requires |s.recBuffers| >= 3 && Mergeable(s) && Exports(s, out)
    ensures |out| == s.recLength
  {
  }

  lemma {:induction false} FramesTooLarge(file: seq<Byte>, numChannels: nat, c: nat, received: Samples)
    requires c < numChannels && numChannels >= 3 && |file| == 44 + 2 * |received|
    ensures AllNear(Channel(file, numChannels, c), received) <==> received == []
  {
    Quotient(|received|, numChannels);
    assert |Channel(file, numChannels, c)| == |received| / numChannels;
    hide SampleAt, Near;
  }

  lemma {:induction false} Quotient(n: nat, m: nat)
    requires m >= 2
    ensures n / m == n <==> n == 0
  {
    DivMod(n, m);
    AtMostProduct(2, m, n / m);
  }

  /** For instance, of three channels that received one sample each nothing at all is read back. */
  lemma {:induction false} ThreeChannelsFail(x: real, y: real, z: real, sampleRate: nat, out: Samples)
    ensures var ms := [Record([[x], [y], [z]])];
            && AllWellFormed(ms, 3)
            && Mergeable(After(ms, 3))
            && (Exports(After(ms, 3), out) ==> !Faithful(File(3, sampleRate, out), ms, 3))
  {
    var ms := [Record([[x], [y], [z]])];
    assert AllWellFormed(ms, 3);
    ExportedRun(ms, 3, sampleRate, out);
    assert After(ms, 3).recLength == 1;
  }

  lemma {:induction false} ExportsChannel(s: State, out: Samples, c: nat)
    requires c < |s.recBuffers| <= 2 && Mergeable(s) && Exports(s, out)
    requires forall d :: 0 <= d < |s.recBuffers| ==> |Concat(s.recBuffers[d])| == s.recLength
    ensures |out| == if |s.recBuffers| == 1 then s.recLength else 2 * s.recLength
    ensures if |s.recBuffers| == 1 then out == Concat(s.recBuffers[c])
            else forall i :: 0 <= i < s.recLength ==> Concat(s.recBuffers[c])[i] == out[2 * i + c]
  {
    assert forall d :: 0 <= d < |s.recBuffers| ==> Fit(s.recBuffers[d], s.recLength) == Concat(s.recBuffers[d]);
    hide Fit, Concat;
    assert s.recBuffers[0] in s.recBuffers;
  }

  lemma {:induction false} ChannelOf(numChannels: nat, sampleRate: nat, out: Samples, c: nat, received: Samples)
    requires c < numChannels <= 2
    requires |out| == if numChannels == 1 then |received| else 2 * |received|
    requires if numChannels == 1 then out == received
             else forall i :: 0 <= i < |received| ==> received[i] == out[2 * i + c]
    ensures AllNear(Channel(File(numChannels, sampleRate, out), numChannels, c), received)
  {
    hide *;
    var f := File(numChannels, sampleRate, out);
    if numChannels == 1 {
      forall i | 0 <= i < |received|
        ensures Near(SampleAt(f, i), received[i])
      {
        FileSampleAt(numChannels, sampleRate, out, i);
      }
    } else {
      forall i | 0 <= i < |received|
        ensures Near(SampleAt(f, 2 * i + c), received[i])
      {
        FileSampleAt(numChannels, sampleRate, out, 2 * i + c);
      }
    }
    ChannelIs(f, numChannels, c, received);
  }

  lemma {:induction false} ChannelIs(file: seq<Byte>, numChannels: nat, c: nat, received: Samples)
    requires c < numChannels <= 2 && |file| == 44 + 2 * (if numChannels == 1 then |received| else 2 * |received|)
    requires forall i :: 0 <= i < |received| ==>
               Near(SampleAt(file, if numChannels == 1 then i else 2 * i + c), received[i])
    ensures AllNear(Channel(file, numChannels, c), received)
  {
    hide Near, SampleAt;
    var samples, count := Channel(file, numChannels, c), (|file| - 44) / 2;
    assert count / numChannels == |received|;
    forall i | 0 <= i < |received|
      ensures Near(samples[i], received[i])
    {
      assert numChannels * i + c == if numChannels == 1 then i else 2 * i + c;
      assert samples[i] == SampleAt(file, numChannels * i + c);
    }
  }
}
