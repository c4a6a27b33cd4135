// ECG measurements of the PMD service: the handler that starts and stops
// the stream, and the decoder for its notifications.

module Ecg {
  import opened Wire
  import opened Pmd

  /** Sample rate requested from the sensor, in Hz. */
  const SampleFreq: uint16 := 130
  /** Sample resolution requested from the sensor, in bits. */
  const Resolution: uint16 := 14
  /** The only ECG frame type. */
  const FrameType0: byte := 0
  /** Bytes per sample. */
  const SamplingStride := 3

  /** `ECGHandler.Handle`: `h` is the callback, `None` for a nil handler.
      A nil handler stops the measurement and sends no records; otherwise
      the measurement starts with records the setting table accepts. */
  function Handle(h: Option<HandlerId>): (r: Handling)
    ensures r.measure == EcgType && r.callback == h
    ensures h.None? <==> r.command == MeasureStop
    ensures h.None? <==> r.settings == []
    ensures forall i :: 0 <= i < |r.settings| ==> Accepted(r.settings[i])
  {
    if h.None? then Handling(MeasureStop, EcgType, [], None)
    else Handling(MeasureStart, EcgType,
      [Uint16(SampleRateSetting, [SampleFreq]), Uint16(ResolutionSetting, [Resolution])], h)
  }

  /** Stopping sends no records; starting sends the sample rate and the
      resolution, every record passes the table check, so the command
      message is built, and the records read back from it are those sent. */
  lemma HandleAccepted(h: Option<HandlerId>, record: byte)
    ensures Handle(h).measure == EcgType && Handle(h).callback == h
    ensures h.None? <==> Handle(h).command == MeasureStop
    ensures Message(SetCommand(Handle(h).command, record, EcgType), Handle(h).settings).Success?
    ensures var m := Message(SetCommand(Handle(h).command, record, EcgType), Handle(h).settings).value;
      Parse(m[2..]) == Parsed(Handle(h).settings, None)
  {
    MessageWellFormed(SetCommand(Handle(h).command, record, EcgType), Handle(h).settings);
  }

  /** An ECG measurement: when the frame was taken and the samples in µV. */
  datatype Ecg = Ecg(timestamp: Time, trace: seq<int>)

  /** The samples of an ECG payload: one 24-bit little-endian signed value
      per three bytes. */
  function Trace(p: seq<byte>): (t: seq<int>)
    requires |p| % SamplingStride == 0
    ensures |t| == |p| / SamplingStride
  {
    seq(|p| / 3, i requires 0 <= i < |p| / 3 => LeInt24(p[3 * i..3 * i + 3]))
  }

  /** What `ECG.UnmarshalBinary` makes of a notification. A short slice,
      where Go panics, is `IndexOutOfRange`. */
  function Frame(data: seq<byte>): Result<Ecg, Error>
  {
    if |data| <= SampleTypeOffset then Failure(IndexOutOfRange)
    else if data[SampleTypeOffset] != EcgType then Failure(UnexpectedSampleType(data[SampleTypeOffset]))
    else if |data| <= FrameTypeOffset then Failure(IndexOutOfRange)
    else if data[FrameTypeOffset] != FrameType0 then Failure(UnexpectedFrameType(data[FrameTypeOffset]))
    else if (|data| - DataOffset) % SamplingStride != 0 then
      Failure(SampleCountNotFactor((|data| - DataOffset) % SamplingStride))
    else Success(Ecg(DeviceTime(LeUint64(data[TimeStampOffset..])), Trace(data[DataOffset..])))
  }

  /** The receiver after `UnmarshalBinary` and the error it returned; an
      error leaves the receiver as it was. */
  function Unmarshaled(recv: Ecg, data: seq<byte>): (Ecg, Option<Error>)
  {
    match Frame(data)
    case Success(m) => (m, None)
    case Failure(e) => (recv, Some(e))
  }

  /** `ECG.UnmarshalBinary`: checks the sample and frame types, then
      collects the samples three bytes at a time. */
  method UnmarshalEcg(recv: Ecg, data: seq<byte>) returns (out: Ecg, err: Option<Error>)
    ensures (out, err) == Unmarshaled(recv, data)
  {
    if |data| <= SampleTypeOffset {
      return recv, Some(IndexOutOfRange);
    }
    if data[SampleTypeOffset] != EcgType {
      return recv, Some(UnexpectedSampleType(data[SampleTypeOffset]));
    }
    if |data| <= FrameTypeOffset {
      return recv, Some(IndexOutOfRange);
    }
    if data[FrameTypeOffset] != FrameType0 {
      return recv, Some(UnexpectedFrameType(data[FrameTypeOffset]));
    }
    var timestamp := LeUint64(data[TimeStampOffset..]);
    var trace := data[DataOffset..];
    if |trace| % SamplingStride != 0 {
      return recv, Some(SampleCountNotFactor(|trace| % SamplingStride));
    }
    ghost var m := |trace| / 3;
    var samples: seq<int> := [];
    var i := 0;
    while i < |trace|
      invariant i == 3 * |samples| && |trace| == 3 * m && i <= |trace|
      invariant forall j :: 0 <= j < |samples| ==> samples[j] == LeInt24(trace[3 * j..3 * j + 3])
    {
      samples := samples + [LeInt24(trace[i..i + SamplingStride])];
      i := i + SamplingStride;
    }
    assert samples == Trace(trace);
    return Ecg(DeviceTime(timestamp), samples), None;
  }

  // ---------------------------------------------------------------------
  // The frames a sensor sends

  /** The payload bytes for a sequence of 24-bit samples. */
  function Samples(t: seq<int>): (p: seq<byte>)
    requires forall i :: 0 <= i < |t| ==> -0x80_0000 <= t[i] < 0x80_0000
    ensures |p| == 3 * |t|
  {
    if t == [] then [] else PutInt24(t[0]) + Samples(t[1..])
  }

  /** An ECG notification carrying `t` taken at sensor time `ts`. */
  function Notification(ts: uint64, t: seq<int>): (n: seq<byte>)
    requires forall i :: 0 <= i < |t| ==> -0x80_0000 <= t[i] < 0x80_0000
    ensures |n| == DataOffset + 3 * |t|
  {
    [EcgType] + PutUint64(ts) + [FrameType0] + Samples(t)
  }

  /** The `i`th three bytes of an encoded payload are the `i`th sample's. */
  lemma {:induction false} SamplesAt(t: seq<int>, i: nat)
    requires forall k :: 0 <= k < |t| ==> -0x80_0000 <= t[k] < 0x80_0000
    requires i < |t|
    ensures Samples(t)[3 * i..3 * i + 3] == PutInt24(t[i])
  {
    if i > 0 {
      SamplesAt(t[1..], i - 1);
      assert Samples(t)[3 * i..3 * i + 3] == Samples(t[1..])[3 * (i - 1)..3 * (i - 1) + 3];
    }
  }

  /** Decoding a payload gives back the samples it encodes. */
  lemma TraceSamples(t: seq<int>)
    requires forall i :: 0 <= i < |t| ==> -0x80_0000 <= t[i] < 0x80_0000
    ensures Trace(Samples(t)) == t
  {
    AllSamplesAt(t);
    TraceOf(Samples(t), t);
  }

  /** Every sample is read back from its own three bytes. */
  lemma AllSamplesAt(t: seq<int>)
    requires forall i :: 0 <= i < |t| ==> -0x80_0000 <= t[i] < 0x80_0000
    ensures forall i :: 0 <= i < |t| ==> LeInt24(Samples(t)[3 * i..3 * i + 3]) == t[i]
  {
    forall i | 0 <= i < |t|
      ensures LeInt24(Samples(t)[3 * i..3 * i + 3]) == t[i]
    {
      SampleAt(t, i);
    }
  }

  /** A payload whose every three bytes hold the matching sample. */
  lemma TraceOf(p: seq<byte>, t: seq<int>)
    requires |p| == 3 * |t|
    requires forall i :: 0 <= i < |t| ==> LeInt24(p[3 * i..3 * i + 3]) == t[i]
    ensures Trace(p) == t
  {
    assert |p| / 3 == |t|;
  }

  /** The `i`th sample is read back from its three bytes. */
  lemma SampleAt(t: seq<int>, i: nat)
    requires forall k :: 0 <= k < |t| ==> -0x80_0000 <= t[k] < 0x80_0000
    requires i < |t|
    ensures LeInt24(Samples(t)[3 * i..3 * i + 3]) == t[i]
  {
    SamplesAt(t, i);
    LeInt24RoundTrip(t[i], PutInt24(t[i]));
  }

  /** Every notification a sensor sends decodes to its timestamp and its
      samples. */
  lemma FrameRoundTrip(ts: uint64, t: seq<int>)
    requires forall i :: 0 <= i < |t| ==> -0x80_0000 <= t[i] < 0x80_0000
    ensures Frame(Notification(ts, t)) == Success(Ecg(DeviceTime(ts), t))
  {
    var n := Notification(ts, t);
    assert n[TimeStampOffset..][..8] == PutUint64(ts);
    LeUint64Prefix(n[TimeStampOffset..], PutUint64(ts));
    assert n[DataOffset..] == Samples(t);
    TraceSamples(t);
  }

  /** The decoder's checks in the order the source makes them: a wrong
      sample type is reported before the frame type is looked at, and a
      payload whose length is not a multiple of three is refused. */
  lemma FrameErrors(data: seq<byte>)
    ensures |data| > 0 && data[0] != EcgType ==> Frame(data) == Failure(UnexpectedSampleType(data[0]))
    ensures |data| > 9 && data[0] == EcgType && data[9] != FrameType0 ==>
      Frame(data) == Failure(UnexpectedFrameType(data[9]))
    ensures |data| > 9 && data[0] == EcgType && data[9] == FrameType0 ==>
      (Frame(data).Success? <==> (|data| - 10) % 3 == 0)
    ensures Frame(data).Success? ==>
      |data| >= DataOffset && |Frame(data).value.trace| == (|data| - DataOffset) / 3
  {
  }
}
