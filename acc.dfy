// Accelerometer measurements of the PMD service: the handler that starts
// and stops the stream, and the decoder for its notifications.

module Acc {
  import opened Wire
  import opened Pmd

  /** Frame types: one X/Y/Z triple of 8-, 16- or 24-bit components. */
  const FrameType0: byte := 0
  const FrameType1: byte := 1
  const FrameType2: byte := 2
  /** Sample resolution requested from the sensor, in bits. */
  const Resolution: uint16 := 16

  /** `AccHandler`: the sample frequency in Hz, the range in G and the
      callback, `None` for a nil handler. */
  datatype Handler = Handler(sampleFreq: uint16, range: uint16, callback: Option<HandlerId>)

  /** `AccHandler.Handle`: a nil callback stops the measurement and sends
      no records; otherwise the measurement starts with records the setting
      table accepts, whatever frequency and range were chosen. */
  function Handle(h: Handler): (r: Handling)
    ensures r.measure == AccType && r.callback == h.callback
    ensures h.callback.None? <==> r.command == MeasureStop
    ensures h.callback.None? <==> r.settings == []
    ensures forall i :: 0 <= i < |r.settings| ==> Accepted(r.settings[i])
  {
    if h.callback.None? then Handling(MeasureStop, AccType, [], None)
    else Handling(MeasureStart, AccType,
      [Uint16(SampleRateSetting, [h.sampleFreq]), Uint16(ResolutionSetting, [Resolution]),
       Uint16(RangeUnitSetting, [h.range])], h.callback)
  }

  /** Stopping sends no records; starting sends the sample rate, the
      resolution and the range, whatever frequency and range were chosen
      every record passes the table check, so the command message is built
      and the records read back from it are those sent. */
  lemma HandleAccepted(h: Handler, record: byte)
    ensures Handle(h).measure == AccType && Handle(h).callback == h.callback
    ensures h.callback.None? <==> Handle(h).command == MeasureStop
    ensures Message(SetCommand(Handle(h).command, record, AccType), Handle(h).settings).Success?
    ensures var m := Message(SetCommand(Handle(h).command, record, AccType), Handle(h).settings).value;
      Parse(m[2..]) == Parsed(Handle(h).settings, None)
  {
    MessageWellFormed(SetCommand(Handle(h).command, record, AccType), Handle(h).settings);
  }

  /** An acceleration measurement. */
  datatype Acc = Acc(timestamp: Time, x: int, y: int, z: int)

  /** The width in bytes of one component in frames of a known type. */
  function ComponentSize(frame: byte): nat
    requires frame <= FrameType2
  {
    frame as nat + 1
  }

  /** One component read from the front of `b`: a sign-extended byte, a
      little-endian int16 or a little-endian 24-bit value. */
  function Component(frame: byte, b: seq<byte>): (v: int)
    requires frame <= FrameType2 && |b| >= ComponentSize(frame)
    ensures -0x80_0000 <= v < 0x80_0000
  {
    if frame == FrameType0 then Int8(b[0])
    else if frame == FrameType1 then Int16(LeUint16(b))
    else LeInt24(b)
  }

  /** What `Acc.UnmarshalBinary` makes of a notification. A short slice,
      where Go panics, is `IndexOutOfRange`; bytes after Z are ignored. */
  function Frame(data: seq<byte>): Result<Acc, Error>
  {
    if |data| <= SampleTypeOffset then Failure(IndexOutOfRange)
    else if data[SampleTypeOffset] != AccType then Failure(UnexpectedSampleType(data[SampleTypeOffset]))
    else if |data| <= FrameTypeOffset then Failure(IndexOutOfRange)
    else if data[FrameTypeOffset] > FrameType2 then Failure(UnexpectedFrameType(data[FrameTypeOffset]))
    else
      var f := data[FrameTypeOffset];
      var w := ComponentSize(f);
      if |data| < DataOffset + 3 * w then Failure(IndexOutOfRange)
      else
        Success(Acc(DeviceTime(LeUint64(data[TimeStampOffset..])),
          Component(f, data[DataOffset..]), Component(f, data[DataOffset + w..]),
          Component(f, data[DataOffset + 2 * w..])))
  }

  /** The receiver after `UnmarshalBinary` and the error it returned; an
      error leaves the receiver as it was. */
  function Unmarshaled(recv: Acc, data: seq<byte>): (r: (Acc, Option<Error>))
    ensures r.1.None? <==> Frame(data).Success?
    ensures r.1.Some? ==> r.0 == recv
  {
    match Frame(data)
    case Success(m) => (m, None)
    case Failure(e) => (recv, Some(e))
  }

  // ---------------------------------------------------------------------
  // The frames a sensor sends

  /** The values a component of the frame type can hold. */
  predicate Fits(frame: byte, v: int)
    requires frame <= FrameType2
  {
    var half := if frame == FrameType0 then 0x80 else if frame == FrameType1 then 0x8000 else 0x80_0000;
    -half <= v < half
  }

  /** The bytes of one component, two's complement, low byte first. */
  function PutComponent(frame: byte, v: int): (b: seq<byte>)
    requires frame <= FrameType2 && Fits(frame, v)
    ensures |b| == ComponentSize(frame)
  {
    if frame == FrameType0 then [if v < 0 then v + 0x100 else v]
    else if frame == FrameType1 then PutUint16(if v < 0 then v + 0x1_0000 else v)
    else PutInt24(v)
  }

  /** A component is read back from its bytes, whatever follows them. */
  lemma ComponentRoundTrip(frame: byte, v: int, rest: seq<byte>)
    requires frame <= FrameType2 && Fits(frame, v)
    ensures Component(frame, PutComponent(frame, v) + rest) == v
  {
    var b := PutComponent(frame, v);
    if frame == FrameType1 {
      LeUint16Prefix(b + rest, b);
    } else if frame == FrameType2 {
      LeInt24RoundTrip(v, b);
      assert (b + rest)[..3] == b;
    }
  }

  /** An accelerometer notification of the frame type carrying one sample
      taken at sensor time `ts`, followed by bytes the decoder ignores. */
  function Notification(ts: uint64, frame: byte, x: int, y: int, z: int, extra: seq<byte>): seq<byte>
    requires frame <= FrameType2 && Fits(frame, x) && Fits(frame, y) && Fits(frame, z)
  {
    [AccType] + PutUint64(ts) + [frame]
      + PutComponent(frame, x) + PutComponent(frame, y) + PutComponent(frame, z) + extra
  }

  /** Every notification a sensor sends decodes to its timestamp and its
      sample, whatever bytes follow the sample. */
  lemma FrameRoundTrip(ts: uint64, frame: byte, x: int, y: int, z: int, extra: seq<byte>)
    requires frame <= FrameType2 && Fits(frame, x) && Fits(frame, y) && Fits(frame, z)
    ensures Frame(Notification(ts, frame, x, y, z, extra)) == Success(Acc(DeviceTime(ts), x, y, z))
  {
    var cx, cy, cz := PutComponent(frame, x), PutComponent(frame, y), PutComponent(frame, z);
    FrameAt(frame, PutUint64(ts), cx, cy, cz, extra);
    ComponentRoundTrip(frame, x, cy + cz + extra);
    ComponentRoundTrip(frame, y, cz + extra);
    ComponentRoundTrip(frame, z, extra);
  }

  /** Where the decoder finds the timestamp and the three components of a
      frame of a known type, whatever their bytes hold. */
  lemma FrameAt(f: byte, tsb: seq<byte>, cx: seq<byte>, cy: seq<byte>, cz: seq<byte>, extra: seq<byte>)
    requires f <= FrameType2 && |tsb| == 8
    requires |cx| == ComponentSize(f) && |cy| == ComponentSize(f) && |cz| == ComponentSize(f)
    ensures Frame([AccType] + tsb + [f] + cx + cy + cz + extra) ==
      Success(Acc(DeviceTime(LeUint64(tsb)), Component(f, cx + (cy + cz + extra)),
        Component(f, cy + (cz + extra)), Component(f, cz + extra)))
  {
    var n := [AccType] + tsb + [f] + cx + cy + cz + extra;
    FrameLayout(f, tsb, cx, cy, cz, extra);
    FrameOf(n, f);
    LeUint64Prefix(n[TimeStampOffset..], tsb);
  }

  /** A frame of a known type long enough for three components decodes to
      the values at their offsets. */
  lemma FrameOf(n: seq<byte>, f: byte)
    requires f <= FrameType2 && |n| >= DataOffset + 3 * ComponentSize(f)
    requires n[SampleTypeOffset] == AccType && n[FrameTypeOffset] == f
    ensures var w := ComponentSize(f);
      Frame(n) == Success(Acc(DeviceTime(LeUint64(n[TimeStampOffset..])), Component(f, n[DataOffset..]),
        Component(f, n[DataOffset + w..]), Component(f, n[DataOffset + 2 * w..])))
  {
  }

  /** The byte layout of a frame: type, timestamp, frame type, X, Y, Z. */
  lemma FrameLayout(f: byte, tsb: seq<byte>, cx: seq<byte>, cy: seq<byte>, cz: seq<byte>, extra: seq<byte>)
    requires |tsb| == 8 && |cx| == |cy| == |cz|
    ensures var n := [AccType] + tsb + [f] + cx + cy + cz + extra;
      var w := |cx|;
      n[SampleTypeOffset] == AccType && n[FrameTypeOffset] == f &&
      n[TimeStampOffset..][..8] == tsb && n[DataOffset..] == cx + (cy + cz + extra) &&
      n[DataOffset + w..] == cy + (cz + extra) && n[DataOffset + 2 * w..] == cz + extra
  {
  }

  /** The decoder's errors: a wrong sample type is reported before the
      frame type is looked at, a frame type other than 0, 1 and 2 is
      reported with its value, and a frame of a known type decodes exactly
      when it holds three components. */
  lemma FrameErrors(data: seq<byte>)
    ensures |data| > 0 && data[0] != AccType ==> Frame(data) == Failure(UnexpectedSampleType(data[0]))
    ensures |data| > 9 && data[0] == AccType && data[9] > 2 ==>
      Frame(data) == Failure(UnexpectedFrameType(data[9]))
    ensures |data| > 9 && data[0] == AccType && data[9] <= 2 ==>
      (Frame(data).Success? <==> |data| >= 13 + 3 * data[9] as int)
  {
  }
}
