# polar — a verified model of the sensor client's core

This project models, in Dafny, the parts of the `polar` Bluetooth sensor
client whose behaviour can be stated exactly:

- **the ring buffer** of `cmd/internal/ring`: a fixed array with `head` and
  `tail` cursors and no occupancy counter, where writes overwrite and
  reads wrap around;
- **the Polar Measurement Data (PMD) control-point codec** of `pmd`:
  - the feature bytes and their rendering;
  - the two-byte command preface;
  - the type-tagged, count-prefixed `Uint8`/`Uint16`/`Float32` setting records, checked against the static setting table;
  - `parseSetting`;
  - the framing of `sendCommand` and the response checks of `querySettings`;
  - the signed 24-bit little-endian reader;
  - the conversion of sensor timestamps to Unix time;
- **the ECG and accelerometer frame decoders**, and the settings their
  handlers ask for;
- **the PMD listener**: a 13-slot handler table indexed by measurement type,
  with `SetHandler`, `dispatch`, `Settings`, `Features` and the feature-bytes
  check of `NewListener`;
- **the Heart Rate Measurement decoder** of the Bluetooth Heart Rate Service
  1.0 (flags of section 3.1.1.1, heart rate, energy expended, RR intervals);
- **the integer rasteriser** of the monitor: `line`, `bresenham`, `absSign`,
  `blank` and the `drawOffset` coordinate translation, over an abstract
  pixel map.

Code that changes state step by step is imperative Dafny, each method proved
against a pure function of its inputs or of the old state:

- `Ring.Buffer` is a class over an array;
- the record `write` methods fill a caller's array in place;
- the `UnmarshalBinary` loops, `parseSetting` and `Features.String` are methods with loops;
- the listener's handler table is an array field;
- the heart-rate decoder walks a cursor;
- the drawing routines update an image object.

The pure parts are functions: the accelerometer decoder, the `Handle`
methods, `leInt24`, the sizes and the response checks. What the source
promises is proved about those functions as lemmas:

- round trips from every well-formed encoding;
- the exact error cases and the order in which they are checked;
- the states the ring buffer's tests pin;
- the geometry of the Bresenham walk.

Go's machine semantics are written out where they matter:

- truncating `/` and `%`;
- `int8`, `int16` and `int64` two's-complement conversions;
- the `<<7` that drops high bits;
- index panics on short slices, modelled as an explicit `IndexOutOfRange` outcome rather than a precondition.

Modules: `Wire` (wire.dfy: byte types, little-endian, Go integer
conversions), `Ring` (ring.dfy), `Pmd` (pmd.dfy), `Ecg` (ecg.dfy), `Acc`
(acc.dfy), `PmdListener` (listener.dfy), `Heart` (heart.dfy), `Drawing`
(drawing.dfy).

Two behaviours of the code are worth stating up front:

- **`Features.String`.** It chooses the named rendering when the first feature byte is `0x0F` (pmd/pmd.go:49-63). Otherwise it formats the receiver itself with `%#x`, which calls `String` again and never returns. The model states that as written and proves the corrected rendering, which formats the bytes (see Findings).
- **`querySettings` and the deadline.** The code records a missed deadline but never returns that error: the empty response then fails the length check (pmd/pmd.go:176-181). The model returns `ShortResponse([])` for a timeout, as the code does.

## Model

| member | source | states |
|---|---|---|
| Ring.Buffer.constructor | cmd/internal/ring/ring.go:13-15 | a new buffer has `n` zero slots and `head == tail == 0` |
| Ring.Buffer.Len | cmd/internal/ring/ring.go:17-22 | the length is `tail-head`, or `Size()-head+tail` when wrapped; it lies in `[0, Size()]` and is 0 whenever `head == tail` |
| Ring.Buffer.Size | cmd/internal/ring/ring.go:24-26 | the capacity is the length of the backing store, and in a valid buffer it bounds both cursors |
| Ring.Buffer.Write | cmd/internal/ring/ring.go:28-44 | the new data, head and tail are exactly those of `AfterWrite` (three branches: whole store, fits before the end, wraps), and the cursor invariant is kept |
| Ring.Buffer.CopyTo | cmd/internal/ring/ring.go:52-59 | copies `min(len(dst), stored)` elements, oldest first, from `head` and round the end; when `head == tail` the whole store counts as stored; the rest of dst is untouched |
| Ring.Buffer.CopyWrapped | cmd/internal/ring/ring.go:56-57 | the wrapped branch of `CopyTo`: `data[head:]` then `data[:tail]`, truncated to dst |
| Ring.Buffer.Advance | cmd/internal/ring/ring.go:61-72 | the new head is that of `AfterAdvance`: clamped at `tail` when unwrapped, wrapping without a clamp otherwise |
| Ring.Buffer.Read | cmd/internal/ring/ring.go:46-50 | fills dst as `CopyTo` does and then advances by the count returned |
| Ring.StoredPrefix | cmd/internal/ring/ring.go:56-57 | a prefix of the stored elements of a wrapped buffer is the tail of the array followed by its front |
| Ring.AdvanceUpToStoredKeepsWellFormed | cmd/internal/ring/ring.go:61-72 | advancing by at most the stored count keeps both cursors in range |
| Ring.AdvanceNeverPassesTail | cmd/internal/ring/ring.go:62-65 | unwrapped, head moves by `min(n, tail-head)` and never passes tail; data and tail are unchanged |
| Ring.AdvanceDiscardsOldest | cmd/internal/ring/ring.go:61-72 | advancing by fewer than the stored count discards exactly the `n` oldest elements |
| Ring.AdvanceDrainedLooksFull | cmd/internal/ring/ring.go:17-22 | draining everything leaves `head == tail`: `Len()` is then 0 but `CopyTo` sees a full store |
| Ring.AdvancePastWrapLeavesRange | cmd/internal/ring/ring.go:66-71 | wrapped, the cursors stay in range exactly when `n <= 2*Size()-head`: there is no clamp against tail |
| Ring.WriteWholeStore | cmd/internal/ring/ring.go:29-33 | a write of at least `Size()` elements keeps its last `Size()` elements, with head 0 and tail `Size()` |
| Ring.WriteBeforeEnd | cmd/internal/ring/ring.go:35-38 | a write that fits before the end lands at `tail`, advances tail by its length, never moves head and leaves every other slot alone |
| Ring.WriteAcrossEnd | cmd/internal/ring/ring.go:39-43 | a wrapping write fills `data[tail:]`, then `data[:k]`, sets tail to `k`, and moves head to `k` only when `k > head` |
| Ring.WriteKeepsWellFormed | cmd/internal/ring/ring.go:28-44 | every write keeps both cursors within the array |
| Ring.WriteKeepsNewest | cmd/internal/ring/ring.go:28-44 | apart from the overrun of a wrapped buffer, a write keeps the newest of the elements `Len` counted and the new ones: all of them if they fit, else the newest `Size()` |
| Ring.KeepsNewestBeforeEndUnwrapped | cmd/internal/ring/ring.go:35-38 | the non-wrapping write on an unwrapped buffer appends its elements |
| Ring.KeepsNewestBeforeEndWrapped | cmd/internal/ring/ring.go:35-38 | the non-wrapping write on a wrapped buffer that stops at head appends its elements |
| Ring.KeepsNewestAcrossEndEvicting | cmd/internal/ring/ring.go:39-43 | a wrapping write past head evicts exactly the oldest elements |
| Ring.KeptAll | cmd/internal/ring/ring.go:35-43 | a write whose elements all fit after the live ones, with `head == tail` only when full, keeps the newest |
| Ring.KeptNewest | cmd/internal/ring/ring.go:39-43 | a write that leaves the live elements after the `j` oldest, followed by the new ones, in a full store keeps the newest |
| Ring.KeepsNewestAcrossEndKeepingHead | cmd/internal/ring/ring.go:39-43 | a wrapping write that stops at head appends its elements |
| Ring.WrappedOverrunKeepsOnlyNew | cmd/internal/ring/ring.go:35-43 | a write past head of a wrapped buffer keeps only part of the new elements and fewer than the newest `min(Size(), all)` |
| Ring.OverrunBeforeEnd | cmd/internal/ring/ring.go:35-38 | a non-wrapping write past head of a wrapped buffer leaves only the new elements from `head-tail` on stored |
| Ring.OverrunAcrossEnd | cmd/internal/ring/ring.go:39-43 | a wrapping write past head of a wrapped buffer leaves only the new elements from `head-tail` on stored |
| Ring.WrappedOverrunExample | cmd/internal/ring/ring.go:35-43 | the concrete instance of the overrun: a size-4 buffer keeps `[7]` where `[4, 5, 6, 7]` was due |
| Ring.EvictingWriteKeepsNewest | cmd/internal/ring/ring.go:35-43 | the write that moves head past overwritten slots keeps the newest of the elements `Len` counted and the new ones, including the overrun of a wrapped buffer |
| Ring.EvictingBeforeEnd | cmd/internal/ring/ring.go:35-38 | the corrected write keeps the newest elements in an overrun that stops before the end |
| Ring.EvictingAcrossEnd | cmd/internal/ring/ring.go:39-43 | the corrected write keeps the newest elements in an overrun that wraps |
| Ring.FullCountsAsEmpty | cmd/internal/ring/ring.go:17-22 | the tests' full `head == tail` state hands out four elements to `CopyTo` but `Len` counts none, and a one-element write, evicting or not, leaves only the new element stored |
| Ring.PinnedWrites | cmd/internal/ring/ring_test.go:14-49 | the exact data, head and tail after the tests' writes that fit, from empty and after an advance |
| Ring.PinnedOverwrites | cmd/internal/ring/ring_test.go:50-78 | the exact states after the tests' writes that wrap or replace the whole store |
| Ring.PinnedCopies | cmd/internal/ring/ring_test.go:80-136 | what the tests' wrapped buffers hand out, and the head after an advance past the end |
| Pmd.FeaturesString | pmd/pmd.go:49-63 | the builder loop produces the corrected rendering of the two feature bytes |
| Pmd.RenderedAsWritten | pmd/pmd.go:49-63 | `Features.String` as written, at any stack depth: whenever it returns, the marker is `0x0F` and the result is the named rendering |
| Pmd.GlueName | pmd/pmd.go:57-60 | writing `\|` only when the builder is non-empty, then a name, gives the join of the names so far and the new one |
| Pmd.JoinEmpty | pmd/pmd.go:49-63 | joining non-empty names gives the empty string exactly when there are none |
| Pmd.BuildJoins | pmd/pmd.go:54-61 | the builder loop holds the names of the set bits seen so far joined by `\|` |
| Pmd.SetNamesNonEmpty | pmd/pmd.go:54-61 | the listed names are those of set bits and none is empty |
| Pmd.RenderedFeatures | pmd/pmd.go:49-63 | with marker `0x0F` the rendering is the names of the set bits, lowest first, joined by `\|`; otherwise the corrected rendering is the hex of the bytes, which reads back to them |
| Pmd.HexRoundTrip | pmd/pmd.go:50-52 | the corrected `%#x` rendering of the two bytes as a byte array reads back to them |
| Pmd.AsWrittenOverflows | pmd/pmd.go:49-52 | as written, the call returns exactly when the marker is `0x0F`, giving the named rendering; any other marker exhausts the stack at every depth |
| Pmd.AsWrittenExample | pmd/pmd.go:50-52 | feature bytes `0x00, 0x01`: the source never returns, the corrected rendering is `0x0001` |
| Pmd.Body | pmd/pmd.go:349-454 | the values take `Size()-2` bytes |
| Pmd.Encoding | pmd/pmd.go:346-454 | a record's encoding is exactly `Size()` bytes: `2 + count*width` |
| Pmd.WriteUint8 | pmd/pmd.go:349-362 | fails unless the table entry for the type has this kind and count and dst has room, leaving dst unchanged; otherwise writes type, count and values at the offset and returns `Size()` |
| Pmd.Uint16Layout | pmd/pmd.go:400-404 | the `i`th value of a `Uint16` record sits little-endian at `2 + 2i` of its encoding |
| Pmd.Float32Layout | pmd/pmd.go:448-452 | the `i`th bit pattern of a `Float32` record sits little-endian at `2 + 4i` of its encoding |
| Pmd.StoreHalves | pmd/pmd.go:400-404 | the value loop stores the encoding's values after its header and touches nothing else |
| Pmd.StoreWords | pmd/pmd.go:448-452 | the value loop stores the encoding's bit patterns after its header and touches nothing else |
| Pmd.FillUint16 | pmd/pmd.go:400-404 | the value loop stores the record's encoding at the offset and nothing else |
| Pmd.WriteUint16 | pmd/pmd.go:387-406 | same contract as `WriteUint8` for two-byte values |
| Pmd.FillFloat32 | pmd/pmd.go:448-452 | the value loop stores the record's encoding at the offset and nothing else |
| Pmd.WriteFloat32 | pmd/pmd.go:435-454 | same contract as `WriteUint8` for four-byte bit patterns |
| Pmd.WriteSetting | pmd/pmd.go:276-286 | a setting's `write`, by record kind, with the table check and the encoding above |
| Pmd.Decode | pmd/pmd.go:364-472 | a successful read keeps the receiver's kind, takes type and count from bytes 0 and 1 and consumes at most the data; the only failure is `io.ErrUnexpectedEOF` |
| Pmd.UnmarshalUint8 | pmd/pmd.go:364-376 | the receiver becomes the record read, or stays unchanged with `io.ErrUnexpectedEOF` when the data is short |
| Pmd.UnmarshalUint16 | pmd/pmd.go:408-424 | as above, reading two-byte little-endian values in a loop |
| Pmd.UnmarshalFloat32 | pmd/pmd.go:456-472 | as above, reading four-byte bit patterns in a loop |
| Pmd.UnmarshalSetting | pmd/pmd.go:364-472 | a setting's `UnmarshalBinary`, by the receiver's kind |
| Pmd.ParseSetting | pmd/pmd.go:193-226 | the loop over a shrinking slice returns the records of `Parse` and its error |
| Pmd.DecodeEncoding | pmd/pmd.go:276-286 | every record `write` accepts is read back with its type and values by the kind the table gives its type |
| Pmd.BlankOfAccepted | pmd/pmd.go:203-218 | the table's kind for an accepted record's type is the record's own kind |
| Pmd.HalvesOf | pmd/pmd.go:418-422 | the values read two bytes at a time from `2 + 2i` are those a `Uint16` encoding laid there |
| Pmd.WordsOf | pmd/pmd.go:466-470 | the bit patterns read four bytes at a time from `2 + 4i` are those a `Float32` encoding laid there |
| Pmd.DecodeUint16 | pmd/pmd.go:408-424 | any data that starts with a `Uint16` encoding is read back as that record |
| Pmd.DecodeFloat32 | pmd/pmd.go:456-472 | any data that starts with a `Float32` encoding is read back as that record |
| Pmd.ParseStep | pmd/pmd.go:203-223 | each record read consumes exactly its `Size()` bytes and the reading goes on after it |
| Pmd.ParseAccepted | pmd/pmd.go:193-226 | an accepted record followed by anything is read and the reading continues after it |
| Pmd.ParseEncodeAll | pmd/pmd.go:193-226 | a run of accepted records followed by anything is read back in order, before whatever follows |
| Pmd.EncodeAllCons | pmd/pmd.go:229-246 | a run's encoding is its first record's encoding followed by the rest |
| Pmd.SettingsSize | pmd/pmd.go:302-308 | `settingSize` sums the records' sizes; every record takes at least its two header bytes |
| Pmd.ParseEncodeAllCons | pmd/pmd.go:193-226 | the inductive step of reading back a run |
| Pmd.SettingsSizeIsLength | pmd/pmd.go:302-308 | `settingSize` of a run is the length of its encoding |
| Pmd.ParseStopsAtUnknownType | pmd/pmd.go:196-198 | reading stops at a type byte of 3 or at least 6 with `UnknownSettingType`, returning the records read before it |
| Pmd.ParseStopsAtShortRecord | pmd/pmd.go:207-221 | reading stops with `io.ErrUnexpectedEOF` at a record of a known type that is cut short, returning the records read before it |
| Pmd.ShortRecord | pmd/pmd.go:218-220 | a record of a known type shorter than its header or its values is read as no record and `io.ErrUnexpectedEOF` |
| Pmd.ParseRoundTrip | pmd/pmd.go:193-226 | `parseSetting` of the concatenated encodings of accepted records returns them in order with no error |
| Pmd.PrefaceByteFields | pmd/pmd.go:330-338 | for a recording type 0/1 and a measurement type below 128 the second preface byte holds both, recoverable by `/128` and `%128` |
| Pmd.WritePreface | pmd/pmd.go:330-338 | fails with dst unchanged when fewer than two bytes remain; otherwise writes the command and `Record<<7\|Measure` and returns 2 |
| Pmd.FirstRejectedFound | pmd/pmd.go:240-245 | the first rejected record is absent exactly when all records pass, and otherwise is a record that fails |
| Pmd.MessageWellFormed | pmd/pmd.go:229-246 | the message is built exactly when every record passes; it is then the preface followed by the encodings, `2 + settingSize` long, and its records read back as sent; otherwise the error names a rejected record |
| Pmd.EncodeAllAppend | pmd/pmd.go:229-246 | encodings, sizes and the first rejection distribute over concatenation |
| Pmd.OneRecord | pmd/pmd.go:240-245 | a run of one record is encoded as that record and is rejected exactly when the record is |
| Pmd.MessageStep | pmd/pmd.go:240-245 | one turn of the framing loop extends the message by one record's encoding, or finds the first rejected record |
| Pmd.AppendRecord | pmd/pmd.go:240-245 | one record's `write` into the message buffer extends the prefix or returns `sendCommand`'s error |
| Pmd.AppendOutcome | pmd/pmd.go:240-245 | on the buffer's contents before and after a record's `write`: success extends the message prefix by that record, failure is the message's own error |
| Pmd.BuildMessage | pmd/pmd.go:229-246 | the framing loop returns exactly the message, or the first record's error |
| Pmd.SendCommand | pmd/pmd.go:228-261 | a rejected record aborts before anything is sent; otherwise the message is sent and the response, or the deadline error, is returned |
| Pmd.QuerySettings | pmd/pmd.go:156-191 | sends the two-byte preface and returns the records of a valid response, or the response error |
| Pmd.QueryRoundTrip | pmd/pmd.go:180-190 | a response `0xF0, command, _, 0, _` followed by accepted records yields exactly those records |
| Pmd.QueryAccepts | pmd/pmd.go:180-190 | a response `0xF0, command, _, 0, _` yields whatever `parseSetting` makes of the bytes after it |
| Pmd.QueryRejects | pmd/pmd.go:176-190 | a wrong response code, command or status is an invalid response with no records; a missed deadline is a short empty response |
| Pmd.LeInt24 | pmd/pmd.go:474-477 | `b0 + 256*b1 + 65536*b2 - 2^24` when `b2 >= 0x80`, always in `[-2^23, 2^23)` |
| Pmd.LeInt24RoundTrip | pmd/pmd.go:474-477 | `leInt24` reads back every 24-bit value, and every three bytes are the encoding of what it reads |
| Pmd.DeviceTimeExact | pmd/ecg.go:61 | the timestamp splits exactly into seconds after the 2000 epoch and nanoseconds, with truncating division; nanoseconds lie in `[0, 1e9)` below 2^63 and in `(-1e9, 0]` above |
| Pmd.DeviceTime | pmd/ecg.go:61 | the timestamp splits into seconds after the 2000 epoch and nanoseconds below 1e9 in magnitude, which add back to `int64(ts)`; the nanoseconds take the sign of `int64(ts)`, as truncating division gives them |
| Ecg.HandleAccepted | pmd/ecg.go:24-32 | nil stops with no records; otherwise the sample rate 130 and resolution 14 are requested, both pass the table check, and the message's records read back as sent |
| Ecg.Handle | pmd/ecg.go:24-32 | the ECG measurement type and the callback; a nil handler stops with no records, otherwise the measurement starts with records the table accepts |
| Ecg.Trace | pmd/ecg.go:55-58 | the payload yields one sample per three bytes |
| Ecg.UnmarshalEcg | pmd/ecg.go:40-65 | the sample loop gives the frame's decoding, and every error leaves the receiver unchanged |
| Ecg.SamplesAt | pmd/ecg.go:55-58 | the `i`th three payload bytes are the `i`th sample's |
| Ecg.TraceOf | pmd/ecg.go:55-58 | a payload whose every three bytes hold the matching 24-bit value is read as those values |
| Ecg.SampleAt | pmd/ecg.go:55-58 | each sample is read back from its own three bytes |
| Ecg.TraceSamples | pmd/ecg.go:55-58 | the samples are read back in order from their encoding |
| Ecg.FrameRoundTrip | pmd/ecg.go:40-65 | every ECG notification decodes to its epoch-shifted timestamp and its samples |
| Ecg.FrameErrors | pmd/ecg.go:41-53 | a wrong sample type is reported before the frame type; a payload decodes exactly when its length is a multiple of 3, giving `(len-10)/3` samples |
| Acc.HandleAccepted | pmd/acc.go:43-52 | nil stops with no records; otherwise sample rate, resolution 16 and range are requested in order, all pass the table check, and read back as sent |
| Acc.Handle | pmd/acc.go:43-52 | the accelerometer measurement type and the callback; a nil callback stops with no records, otherwise the measurement starts with records the table accepts |
| Acc.Component | pmd/acc.go:66-77 | a component is an `int8`, a little-endian `int16` or a `leInt24`, within 24-bit range |
| Acc.Unmarshaled | pmd/acc.go:60-90 | the error is absent exactly when the frame decodes, and any error leaves the receiver unchanged |
| Acc.ComponentRoundTrip | pmd/acc.go:66-77 | each component width reads back every value it can hold, whatever follows |
| Acc.FrameAt | pmd/acc.go:60-90 | a frame of a known type with timestamp and three component widths in place decodes to the timestamp and the components read at their offsets |
| Acc.FrameRoundTrip | pmd/acc.go:60-90 | every accelerometer notification of frame type 0, 1 or 2 decodes to its timestamp and X, Y, Z, ignoring trailing bytes |
| Acc.FrameErrors | pmd/acc.go:61-79 | a wrong sample type is reported first; a frame type above 2 is reported with its value; a known frame decodes exactly when it holds three components |
| PmdListener.RouteAfterSet | pmd/listener.go:87 | setting slot `m` redirects exactly the notifications of type `m`, to the callback or to nowhere when it is nil |
| PmdListener.RouteDelivers | pmd/listener.go:64-72 | a delivery hands the whole buffer to the slot of its type byte; the only failure is a type byte past the table |
| PmdListener.Listener.constructor | pmd/listener.go:51-56 | a new listener keeps the feature bytes and has no handler registered |
| PmdListener.Listener.Features | pmd/listener.go:98-100 | returns the feature bytes stored at connection |
| PmdListener.Listener.Dispatch | pmd/listener.go:64-72 | routes as `Route` over the handler table: empty notifications dropped, nil slots dropped, a type byte of 13 or more an index panic |
| PmdListener.Listener.SetHandler | pmd/listener.go:82-89 | a measurement type of 13 or more is refused with nothing changed or sent; otherwise the slot takes the callback whatever the send returns, and the command is sent with the Online recording type |
| PmdListener.Listener.Settings | pmd/listener.go:76-78 | queries `MeasureSettings` with the Online recording type for the measurement type |
| PmdListener.NewListener | pmd/listener.go:28-62 | fewer than two feature bytes is an error; otherwise `Features()` is the first two bytes and no handler is set |
| Heart.Nanos | heart/heart.go:106-113 | an RR value in 1/1024 s becomes the floor of its nanoseconds |
| Heart.Intervals | heart/heart.go:106-113 | one interval per two RR bytes |
| Heart.ReadIntervals | heart/heart.go:106-113 | the RR loop gives each two-byte little-endian value in nanoseconds, in order |
| Heart.UnmarshalRate | heart/heart.go:73-124 | the cursor walk gives the decoding of `Unmarshaled`: flags, contact, heart rate width, optional energy, optional RR; short input is an index panic with the receiver unchanged |
| Heart.RrBytesAt | heart/heart.go:106-113 | the `i`th two RR bytes hold the `i`th interval |
| Heart.AllNanos | heart/heart.go:106-113 | the nanoseconds of each interval, in order |
| Heart.IntervalsOf | heart/heart.go:106-113 | an RR payload whose every two bytes hold the matching interval reads back as those intervals |
| Heart.IntervalsRoundTrip | heart/heart.go:106-113 | an RR payload reads back as its intervals in nanoseconds |
| Heart.FieldsAt | heart/heart.go:73-124 | a notification laid out as flags, heart rate, optional energy and RR bytes of the widths the flags call for decodes field by field |
| Heart.RateRoundTrip | heart/heart.go:73-124 | every notification with consistent contact flags decodes to its heart rate (one or two bytes by bit 0), its energy or -1, its RR intervals or none, and its contact flags |
| Heart.NoContactOverwrites | heart/heart.go:85-90 | contact supported but not detected fails and overwrites the receiver with a rate whose only set field is `contactSupported` |
| Drawing.AbsSign | cmd/monitor/drawing.go:97-102 | `abs >= 0`, `sign` is ±1, `abs*sign == a`, and `sign == -1` exactly when `a < 0` |
| Drawing.ColumnHas | cmd/monitor/drawing.go:53-59 | the column holds exactly the points of `x` between the bounds |
| Drawing.RowHas | cmd/monitor/drawing.go:60-66 | the row holds exactly the points of `y` between the bounds |
| Drawing.Trail | cmd/monitor/drawing.go:77-94 | the walk starts at its starting point |
| Drawing.TrailUnfold | cmd/monitor/drawing.go:79-93 | a turn of the loop either returns, leaving nothing more of the walk, or steps to the coordinates and error term the rest of the walk starts from |
| Drawing.TrailBounded | cmd/monitor/drawing.go:77-94 | no coordinate overshoots its target and each step moves at most one pixel in each direction |
| Drawing.StopsAtTarget | cmd/monitor/drawing.go:80-90 | when the loop returns, both coordinates are at their targets |
| Drawing.StepOnTrack | cmd/monitor/drawing.go:79-93 | a turn of the loop keeps the error term consistent with the distance left |
| Drawing.TrailEnds | cmd/monitor/drawing.go:72-95 | the walk ends at `(x1, y1)` |
| Drawing.BresenhamLine | cmd/monitor/drawing.go:72-95 | the walk starts at `(x0, y0)`, ends at `(x1, y1)`, stays in their rectangle and moves one king's step at a time |
| Drawing.DrawBresenham | cmd/monitor/drawing.go:72-95 | paints exactly the walk's points |
| Drawing.Walk | cmd/monitor/drawing.go:77-94 | the loop paints the points of the walk from the current state |
| Drawing.Line | cmd/monitor/drawing.go:51-70 | paints a column, a row, or the Bresenham walk |
| Drawing.LineSets | cmd/monitor/drawing.go:51-70 | a vertical line sets exactly the column between its ends, a horizontal one exactly the row, and every line sets both ends |
| Drawing.ColumnsHas | cmd/monitor/drawing.go:108-112 | the nested loops visit exactly the points of the rectangle |
| Drawing.Blank | cmd/monitor/drawing.go:104-113 | paints every point of the rectangle white |
| Drawing.BlankCovers | cmd/monitor/drawing.go:104-113 | after `blank` every pixel in the rectangle is white and every other pixel is as it was |
| Drawing.OffsetImage.Set | cmd/monitor/drawing.go:30-32 | writes at `(x+offset.X, y+offset.Y)`; read back through the translated `At` it shows the colour and no other point changes; through the Go `At` a non-zero offset does not see it |
| Drawing.OffsetImage.AtAsWritten | cmd/monitor/drawing.go:34-36 | the Go `At`: the image's colour at the point minus the offset, which is what the translated `At` reads twice the offset away |
| Drawing.OffsetImage.At | cmd/monitor/drawing.go:30-36 | the corrected `At`: the image's colour at the point plus the offset, the pixel `Set` writes |
| Drawing.AsWrittenReadsElsewhere | cmd/monitor/drawing.go:30-36 | with the Go `At`, a point written through an offset view of a blank image reads back transparent |
| Drawing.ReadBackWritten | cmd/monitor/drawing.go:30-36 | with the translated `At`, every point written reads back as written |

## Left out

- Bluetooth transport and discovery are not modelled: characteristic lookup, reads, `EnableNotifications`, `Close` and `battery.Level` are calls into the Bluetooth library. The listener's reply is a parameter (`Reply`), and `NewListener` receives the bytes the control-point read returned.
- The notification plumbing of `querySettings` and `sendCommand` is not modelled: callbacks, channel close and the `select` on the context are concurrency. The sensor's answer is a `Reply`, either notified bytes or a missed deadline.
- `Float32` setting values are IEEE 754 bit patterns (`uint32`). The float conversions are identities on bits and are not modelled.
- `time.Time` is a pair of integer seconds and nanoseconds. Time zones and library normalisation of negative nanoseconds are left out.
- `Features.String`: the generated `Support.String` names are a function parameter, because the stringer file is not part of this model.
- Ring.WriteKeepsNewest: counts the elements before a write as `Len` counts them. A full buffer with `head == tail` counts as empty, so its old elements are not promised to survive, and `FullCountsAsEmpty` shows that a write loses them.
- Ring.EvictingWriteKeepsNewest: the same reading of `head == tail` as empty. The corrected write does not keep the old elements of a full `head == tail` buffer either.
- Ring.Buffer.Advance: takes `n` as a natural number. A negative `n`, which the source accepts, is not modelled.
- Ring.Buffer.CopyTo: requires `dst` to be a different array from the buffer's store. Copying a buffer into its own backing array is not modelled.
- Ring.Buffer.constructor: takes the zero value of the element type as an argument, since Dafny has no named zero value for a type parameter.
- PmdListener.NewListener: the read into a 32-byte buffer is modelled as any sequence of bytes. The error paths of the Bluetooth calls around it are left out.
- PmdListener.Listener.Dispatch: returns the handler that receives the buffer instead of calling it. Callbacks are opaque `HandlerId`s.
- Heart.UnmarshalRate: an empty RR list stands for Go's nil slice. A nil slice and an empty one are not told apart.
- Heart.Bit: the flag masks `&` are written as division and remainder by powers of two.
- Pmd.LeInt24: the bitwise OR of the source is written as a sum. The parts do not overlap, so the result is the same.
- The `default` branch of `parseSetting`'s kind switch is unreachable, because every non-zero table kind is 1, 2 or 3. The model has no such branch.
- Integer widths: `int32` sample values and `int` cursors are unbounded integers here. Wrap-around cannot occur at the sizes involved. The `int8`/`int16`/`int64` conversions, where it matters, are explicit.
- Pixels are a map from points to colours. Clipping to an image's bounds by concrete image types is not modelled, and `blank` takes its rectangle size from the image.
- `subDrawImage`, `scale` (floating point), the widgets, `displayShim` and the monitor program (`main.go`, `monitor.go`) are not part of this model. They are library wrappers, GUI and goroutine code.

## Findings

| source | as written | input that shows it | evidently intended | confidence | as-written member | corrected member |
|---|---|---|---|---|---|---|
| cmd/internal/ring/ring.go:35-43 | a write that runs past `head` of a wrapped buffer (`head > tail`) leaves `head` where it was, so the newest elements lie behind it and are no longer counted as stored | `NewBuffer(4)`, `Write([1 2 3 4])`, `Advance(2)`, `Write([5])`, `Write([6 7])`: `Len()` is 1 and `CopyTo` gives `[7]` | the buffer keeps the newest `Size()` elements, `[4 5 6 7]`, by moving `head` to the new `tail`; a full buffer with `head == tail` is outside this correction, because `Len` counts it as empty | not executed | Ring.WrappedOverrunExample | Ring.EvictingWriteKeepsNewest |
| pmd/pmd.go:50-51 | with a first feature byte other than `0x0F`, `fmt.Sprintf("%#x", f)` formats a value whose type has a `String` method, so fmt calls `f.String()` and the recursion never ends | `Features{0x00, 0x01}`: a fatal stack overflow | `fmt.Sprintf("%#x", [2]byte(f))`, giving `0x0001` | not executed | Pmd.AsWrittenExample | Pmd.RenderedFeatures |
| cmd/monitor/drawing.go:34-36 | `drawOffset.At` subtracts the offset while `Set` adds it, so reading a point back after writing it looks at a different pixel | offset (1, 0) on a blank image: `Set(0, 0, white)` writes pixel (1, 0), and `At(0, 0)` reads pixel (-1, 0), which is transparent | `At` adds the offset as `Set` does | not executed | Drawing.AsWrittenReadsElsewhere | Drawing.ReadBackWritten |
