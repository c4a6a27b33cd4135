/** The Polar Measurement Data (PMD) control-point codec: the feature
    bytes and their rendering, the two-byte command preface, the type-tagged
    setting records and their validation against the static table of setting
    types, the parsing of a run of records, the framing of a command message,
    the check of a control-point response, the signed 24-bit little-endian
    samples and the sensor timestamp. The Bluetooth transport is replaced by
    a `Reply` value: what the sensor notified, or that the deadline passed. */
module Pmd {
  import opened Wire

  /** Seconds from the Unix epoch to 2000-01-01 00:00:00 UTC, where sensor
      timestamps start. */
  const Epoch := 946684800

  // Control-point commands.
  const MeasureSettings: byte := 1
  const MeasureStart: byte := 2
  const MeasureStop: byte := 3

  // Recording types.
  const Online: byte := 0
  const Offline: byte := 1

  // The measurement types decoded here, and the number of measurement types.
  const EcgType: byte := 0
  const AccType: byte := 2
  const MeasurementTypes := 13

  // Offsets into a data notification.
  const SampleTypeOffset := 0
  const TimeStampOffset := 1
  const FrameTypeOffset := 9
  const DataOffset := 10

  /** The errors the package reports. `IndexOutOfRange` stands for a Go
      run-time panic on a slice that is too short. */
  datatype Error =
    | DstTooShort
    | InvalidSettingType(typ: byte)
    | UnexpectedEOF
    | UnknownSettingType(typ: byte)
    | ShortResponse(resp: seq<byte>)
    | InvalidResponse(resp: seq<byte>)
    | DeadlineExceeded
    | UnexpectedSampleType(sample: byte)
    | UnexpectedFrameType(frame: byte)
    | SampleCountNotFactor(excess: int)
    | InvalidMeasurementType(measure: byte)
    | FeaturesTooShort(got: seq<byte>)
    | IndexOutOfRange

  // ---------------------------------------------------------------------
  // Supported features

  /** The first two bytes of the control point: a marker and the feature flags. */
  datatype Features = Features(marker: byte, flags: byte)

  /** The `Support` flag for bit `k`. */
  function Flag(k: nat): byte
    requires k < 8
  {
    [1, 2, 4, 8, 16, 32, 64, 128][k]
  }

  /** `flags & byte(b) != 0`. */
  predicate Masked(flags: byte, b: int)
    requires 0 <= b < 256
  {
    (flags as bv8) & (b as bv8) != 0
  }

  predicate BitSet(flags: byte, k: nat)
    requires k < 8
  {
    Masked(flags, Flag(k))
  }

  function HexDigit(d: int): char
    requires 0 <= d < 16
  {
    "0123456789abcdef"[d]
  }

  function DigitValue(c: char): int
  {
    if '0' <= c <= '9' then c as int - '0' as int
    else if 'a' <= c <= 'f' then c as int - 'a' as int + 10
    else -1
  }

  /** `fmt.Sprintf("%#x", [2]byte(f))`: "0x" and then two lower-case
      hexadecimal digits per byte. The conversion to a plain byte array
      drops the `String` method, so fmt formats the bytes themselves. */
  function Hex(f: Features): string
  {
    "0x" + [HexDigit(f.marker / 16), HexDigit(f.marker % 16),
            HexDigit(f.flags / 16), HexDigit(f.flags % 16)]
  }

  /** Reads the two bytes back from their hexadecimal rendering. */
  function Unhex(s: string): Option<Features>
  {
    if |s| != 6 || s[..2] != "0x" then None
    else
      var d := seq(4, i requires 0 <= i < 4 => DigitValue(s[2 + i]));
      if exists i :: 0 <= i < 4 && d[i] < 0 then None
      else Some(Features(16 * d[0] + d[1], 16 * d[2] + d[3]))
  }

  /** The names of the flags set in `flags` from bit `k` upward, lowest first. */
  function SetNames(flags: byte, k: nat, name: byte -> string): seq<string>
    requires k <= 8
    decreases 8 - k
  {
    if k == 8 then []
    else (if BitSet(flags, k) then [name(Flag(k))] else []) + SetNames(flags, k + 1, name)
  }

  /** The names joined by '|'. */
  function Join(names: seq<string>): string
  {
    if |names| == 0 then ""
    else if |names| == 1 then names[0]
    else names[0] + "|" + Join(names[1..])
  }

  /** What the string builder of `Features.String` holds after it has
      visited bits `k` to 7, starting from `acc`: before each name of a set
      bit it writes '|' when the builder is not empty. */
  function Build(flags: byte, k: nat, acc: string, name: byte -> string): string
    requires k <= 8
    decreases 8 - k
  {
    if k == 8 then acc
    else if BitSet(flags, k) then
      Build(flags, k + 1, (if |acc| != 0 then acc + "|" else acc) + name(Flag(k)), name)
    else Build(flags, k + 1, acc, name)
  }

  /** `Features.String` as written, run with `depth` nested calls left
      before the goroutine's stack is exhausted. With a marker other than
      0x0F it calls `fmt.Sprintf("%#x", f)`; `f` has a `String` method, so
      fmt calls `f.String()`, which makes the same call again. `None` is the
      fatal stack overflow that ends this recursion. */
  function RenderedAsWritten(f: Features, name: byte -> string, depth: nat): (r: Option<string>)
    ensures r.Some? ==> f.marker == 0x0F && r.value == Rendered(f, name)
    decreases depth
  {
    if f.marker != 0x0F then
      if depth == 0 then None else RenderedAsWritten(f, name, depth - 1)
    else Some(Build(f.flags, 0, "", name))
  }

  /** `Features.String` as evidently intended, with `name` giving the name
      of each `Support` flag: the named rendering for marker 0x0F, and the
      hexadecimal bytes otherwise. */
  function Rendered(f: Features, name: byte -> string): string
  {
    if f.marker != 0x0F then Hex(f) else Build(f.flags, 0, "", name)
  }

  /** As written, `Features.String` returns only for marker 0x0F, and then
      what the corrected rendering gives; on every other marker it exhausts
      the stack however deep the stack is. */
  lemma {:induction false} AsWrittenOverflows(f: Features, name: byte -> string, depth: nat)
    ensures RenderedAsWritten(f, name, depth) == if f.marker == 0x0F then Some(Rendered(f, name)) else None
    decreases depth
  {
    if f.marker != 0x0F && depth > 0 {
      AsWrittenOverflows(f, name, depth - 1);
    }
  }

  /** A sensor whose first feature byte is 0: the source never returns a
      rendering, where the corrected one is "0x0001". */
  lemma AsWrittenExample(name: byte -> string, depth: nat)
    ensures RenderedAsWritten(Features(0x00, 0x01), name, depth) == None
    ensures Rendered(Features(0x00, 0x01), name) == "0x0001"
  {
    AsWrittenOverflows(Features(0x00, 0x01), name, depth);
  }

  /** `Features.String` with the hexadecimal branch corrected to format the
      bytes: the hexadecimal rendering unless the marker byte is 0x0F;
      otherwise the names of the set flags, lowest bit first, separated by
      '|'. */
  method FeaturesString(f: Features, name: byte -> string) returns (s: string)
    ensures s == Rendered(f, name)
  {
    if f.marker != 0x0F {
      return Hex(f);
    }
    s := "";
    var b := 1;
    var k := 0;
    while b < 256
      invariant 0 <= k <= 8
      invariant b == if k < 8 then Flag(k) as int else 256
      invariant Build(f.flags, k, s, name) == Build(f.flags, 0, "", name)
    {
      NextFlag(k);
      if Masked(f.flags, b) {
        if |s| != 0 {
          s := s + "|";
        }
        s := s + name(b);
      }
      b := b * 2;
      k := k + 1;
    }
  }

  /** Doubling the mask moves to the next bit, and past the last one to 256. */
  lemma NextFlag(k: nat)
    requires k < 8
    ensures 2 * Flag(k) as int == if k < 7 then Flag(k + 1) as int else 256
  {
  }

  /** '|' between two parts, where an empty part takes no separator. */
  function Glue(a: string, b: string): string
  {
    if a == "" then b else if b == "" then a else a + "|" + b
  }

  lemma {:induction false} JoinEmpty(names: seq<string>)
    requires forall i :: 0 <= i < |names| ==> names[i] != ""
    ensures Join(names) == "" <==> names == []
  {
  }

  lemma {:induction false} BuildJoins(flags: byte, k: nat, acc: string, name: byte -> string)
    requires k <= 8
    requires forall b :: name(b) != ""
    ensures Build(flags, k, acc, name) == Glue(acc, Join(SetNames(flags, k, name)))
    decreases 8 - k
  {
    if k < 8 {
      var rest := SetNames(flags, k + 1, name);
      assert forall i :: 0 <= i < |rest| ==> rest[i] != "" by {
        SetNamesNonEmpty(flags, k + 1, name);
      }
      JoinEmpty(rest);
      if BitSet(flags, k) {
        var n := name(Flag(k));
        BuildJoins(flags, k + 1, (if |acc| != 0 then acc + "|" else acc) + n, name);
        assert SetNames(flags, k, name) == [n] + rest;
        GlueName(acc, n, rest);
      } else {
        BuildJoins(flags, k + 1, acc, name);
        assert SetNames(flags, k, name) == rest;
      }
    }
  }

  /** Writing one more name into the builder: the separator goes between
      the names already there and the new one. */
  lemma GlueName(acc: string, n: string, rest: seq<string>)
    requires n != "" && (Join(rest) == "" <==> rest == [])
    ensures Glue((if |acc| != 0 then acc + "|" else acc) + n, Join(rest)) == Glue(acc, Join([n] + rest))
  {
    assert Join([n] + rest) == Glue(n, Join(rest)) by {
      if rest != [] {
        assert ([n] + rest)[1..] == rest;
      }
    }
    if acc != "" && Join(rest) != "" {
      assert (acc + "|" + n) + "|" + Join(rest) == acc + "|" + (n + "|" + Join(rest));
    }
  }

  lemma {:induction false} SetNamesNonEmpty(flags: byte, k: nat, name: byte -> string)
    requires k <= 8
    requires forall b :: name(b) != ""
    ensures forall i :: 0 <= i < |SetNames(flags, k, name)| ==> SetNames(flags, k, name)[i] != ""
    decreases 8 - k
  {
    if k < 8 {
      SetNamesNonEmpty(flags, k + 1, name);
    }
  }

  /** With the marker 0x0F the rendering is exactly the names of the set
      flags, lowest first, joined by '|' (empty when no flag is set);
      otherwise it is the hexadecimal rendering, from which both bytes can
      be read back. Flag names are never empty. */
  lemma RenderedFeatures(f: Features, name: byte -> string)
    requires forall b :: name(b) != ""
    ensures f.marker == 0x0F ==> Rendered(f, name) == Join(SetNames(f.flags, 0, name))
    ensures f.marker != 0x0F ==> Unhex(Rendered(f, name)) == Some(f)
  {
    if f.marker == 0x0F {
      BuildJoins(f.flags, 0, "", name);
    } else {
      HexRoundTrip(f);
    }
  }

  lemma HexRoundTrip(f: Features)
    ensures Unhex(Hex(f)) == Some(f)
  {
    var s := Hex(f);
    assert s[..2] == "0x";
    DigitRoundTrip(f.marker / 16);
    DigitRoundTrip(f.marker % 16);
    DigitRoundTrip(f.flags / 16);
    DigitRoundTrip(f.flags % 16);
    UnhexOf(s, f.marker / 16, f.marker % 16, f.flags / 16, f.flags % 16);
  }

  /** A digit is read back as its value. */
  lemma DigitRoundTrip(d: int)
    requires 0 <= d < 16
    ensures DigitValue(HexDigit(d)) == d
  {
    var digits := "0123456789abcdef";
    assert digits[0] == '0' && digits[9] == '9' && digits[10] == 'a' && digits[15] == 'f';
  }

  /** "0x" and four digits are read back as the two bytes they spell. */
  lemma UnhexOf(s: string, a: int, b: int, c: int, e: int)
    requires |s| == 6 && s[..2] == "0x"
    requires 0 <= a < 16 && 0 <= b < 16 && 0 <= c < 16 && 0 <= e < 16
    requires DigitValue(s[2]) == a && DigitValue(s[3]) == b && DigitValue(s[4]) == c && DigitValue(s[5]) == e
    ensures Unhex(s) == Some(Features(16 * a + b, 16 * c + e))
  {
    var d := seq(4, i requires 0 <= i < 4 => DigitValue(s[2 + i]));
    assert d == [a, b, c, e];
  }

  // ---------------------------------------------------------------------
  // Setting records

  // Setting types.
  const SampleRateSetting: byte := 0
  const ResolutionSetting: byte := 1
  const RangeUnitSetting: byte := 2
  const ChannelsSetting: byte := 4
  const ConversionFactorSetting: byte := 5

  /** A record starts with its type and its value count. */
  const HeaderSize := 2

  // Value kinds of the setting table.
  const Uint8Kind: byte := 1
  const Uint16Kind: byte := 2
  const Float32Kind: byte := 3

  // Widths of the encoded values.
  const Uint8Size: byte := 1
  const Uint16Size: byte := 2
  const Int24Size: byte := 3
  const Float32Size: byte := 4

  /** An entry of the setting table: value kind, value count, value width. */
  datatype TableEntry = TableEntry(kind: byte, n: byte, size: byte)

  /** The known setting types, indexed by type; type 3 has no entry. */
  const SettingTypes: seq<TableEntry> := [
    TableEntry(Uint16Kind, 1, Uint16Size),   // SampleRateSetting
    TableEntry(Uint16Kind, 1, Uint16Size),   // ResolutionSetting
    TableEntry(Uint16Kind, 1, Uint16Size),   // RangeUnitSetting
    TableEntry(0, 0, 0),
    TableEntry(Uint8Kind, 1, Uint8Size),     // ChannelsSetting
    TableEntry(Float32Kind, 1, Float32Size)  // ConversionFactorSetting
  ]

  /** A setting record. `Float32` values are carried as their IEEE 754 bit
      patterns, which is all the codec ever looks at. */
  datatype Setting =
    | Uint8(typ: byte, bytes: seq<byte>)
    | Uint16(typ: byte, halves: seq<uint16>)
    | Float32(typ: byte, words: seq<uint32>)

  /** The number of values of a record. */
  function Count(s: Setting): nat
  {
    match s
    case Uint8(_, v) => |v|
    case Uint16(_, v) => |v|
    case Float32(_, v) => |v|
  }

  /** The encoded width of each value of a record. */
  function Width(s: Setting): byte
  {
    match s
    case Uint8(_, _) => Uint8Size
    case Uint16(_, _) => Uint16Size
    case Float32(_, _) => Float32Size
  }

  /** `Size()`: the header and the values. */
  function Size(s: Setting): nat
  {
    match s
    case Uint8(_, v) => HeaderSize + |v|
    case Uint16(_, v) => HeaderSize + 2 * |v|
    case Float32(_, v) => HeaderSize + 4 * |v|
  }

  /** The same record type, whatever the contents. */
  predicate SameKind(s: Setting, t: Setting)
  {
    (s.Uint8? && t.Uint8?) || (s.Uint16? && t.Uint16?) || (s.Float32? && t.Float32?)
  }

  /** The validation every `write` makes before it looks at dst: a known
      type whose table entry has this count and this value width. */
  predicate Accepted(s: Setting)
  {
    s.typ as int < |SettingTypes|
    && SettingTypes[s.typ].n as int == Count(s)
    && SettingTypes[s.typ].size == Width(s)
  }

  /** The values, each little-endian in its width. */
  function Body(s: Setting): (b: seq<byte>)
    ensures |b| == Size(s) - HeaderSize
  {
    match s
    case Uint8(_, v) => v
    case Uint16(_, v) => seq(2 * |v|, j requires 0 <= j < 2 * |v| => PutUint16(v[j / 2])[j % 2])
    case Float32(_, v) => seq(4 * |v|, j requires 0 <= j < 4 * |v| => PutUint32(v[j / 4])[j % 4])
  }

  /** The bytes a successful `write` produces: type, `byte(count)`, values. */
  function Encoding(s: Setting): (e: seq<byte>)
    ensures |e| == Size(s)
  {
    [s.typ, Count(s) % 256] + Body(s)
  }

  /** What `write` returns given `room` bytes of dst after the offset. */
  function WriteResult(s: Setting, room: int): Result<nat, Error>
  {
    if !Accepted(s) then Failure(InvalidSettingType(s.typ))
    else if room < Size(s) then Failure(DstTooShort)
    else Success(Size(s))
  }

  /** `Uint8.write` into dst from `off` on. */
  method WriteUint8(w: Setting, dst: array<byte>, off: nat) returns (r: Result<nat, Error>)
    requires w.Uint8? && off <= dst.Length
    modifies dst
    ensures r == WriteResult(w, dst.Length - off)
    ensures r.Success? ==> dst[..] == old(dst[..off]) + Encoding(w) + old(dst[off + Size(w)..])
    ensures r.Failure? ==> dst[..] == old(dst[..])
  {
    var n := |w.bytes|;
    if w.typ as int >= |SettingTypes| || SettingTypes[w.typ].n as int != n || SettingTypes[w.typ].size != Uint8Size {
      return Failure(InvalidSettingType(w.typ));
    }
    if dst.Length - off < Size(w) {
      return Failure(DstTooShort);
    }
    CopyInto(dst, off, [w.typ, n % 256] + w.bytes);
    return Success(Size(w));
  }

  /** Where each value of a `Uint16` record sits in its encoding: the
      `i`-th, little-endian, at `2 + 2i`. */
  lemma Uint16Layout(w: Setting)
    requires w.Uint16?
    ensures forall i :: 0 <= i < |w.halves| ==>
      Encoding(w)[HeaderSize + 2 * i..HeaderSize + 2 * i + 2] == PutUint16(w.halves[i])
  {
    forall i | 0 <= i < |w.halves|
      ensures Encoding(w)[HeaderSize + 2 * i..HeaderSize + 2 * i + 2] == PutUint16(w.halves[i])
    {
      var h := [w.typ, Count(w) % 256];
      assert Encoding(w) == h + Body(w);
      Uint16BodyAt(w, i);
      AfterHeader(h, Body(w), 2 * i, 2 * i + 2);
    }
  }

  lemma Uint16BodyAt(w: Setting, i: nat)
    requires w.Uint16? && i < |w.halves|
    ensures Body(w)[2 * i..2 * i + 2] == PutUint16(w.halves[i])
  {
    var b := Body(w);
    var p := PutUint16(w.halves[i]);
    forall k | 0 <= k < 2
      ensures b[2 * i + k] == p[k]
    {
      assert (2 * i + k) / 2 == i && (2 * i + k) % 2 == k;
    }
  }

  /** Where each bit pattern of a `Float32` record sits in its encoding:
      the `i`-th, little-endian, at `2 + 4i`. */
  lemma Float32Layout(w: Setting)
    requires w.Float32?
    ensures forall i :: 0 <= i < |w.words| ==>
      Encoding(w)[HeaderSize + 4 * i..HeaderSize + 4 * i + 4] == PutUint32(w.words[i])
  {
    forall i | 0 <= i < |w.words|
      ensures Encoding(w)[HeaderSize + 4 * i..HeaderSize + 4 * i + 4] == PutUint32(w.words[i])
    {
      var h := [w.typ, Count(w) % 256];
      assert Encoding(w) == h + Body(w);
      Float32BodyAt(w, i);
      AfterHeader(h, Body(w), 4 * i, 4 * i + 4);
    }
  }

  lemma Float32BodyAt(w: Setting, i: nat)
    requires w.Float32? && i < |w.words|
    ensures Body(w)[4 * i..4 * i + 4] == PutUint32(w.words[i])
  {
    var b := Body(w);
    var p := PutUint32(w.words[i]);
    forall k | 0 <= k < 4
      ensures b[4 * i + k] == p[k]
    {
      assert (4 * i + k) / 4 == i && (4 * i + k) % 4 == k;
    }
  }

  /** A slice of the body is the same slice of the whole encoding, moved by
      the header. */
  lemma AfterHeader(h: seq<byte>, b: seq<byte>, lo: nat, hi: nat)
    requires lo <= hi <= |b|
    ensures (h + b)[|h| + lo..|h| + hi] == b[lo..hi]
  {
  }

  /** Stores the encoding of a record at `off`, as the second half of
      `Uint16.write` does once the checks have passed. */
  method FillUint16(w: Setting, dst: array<byte>, off: nat)
    requires w.Uint16? && off + Size(w) <= dst.Length
    modifies dst
    ensures dst[..] == old(dst[..off]) + Encoding(w) + old(dst[off + Size(w)..])
  {
    var n := |w.halves|;
    ghost var e := Encoding(w);
    ghost var orig := dst[..];
    assert orig[..off] + e[..0] + orig[off..] == orig;
    StoreNext(dst, [w.typ, n % 256], orig, e, off, 0);
    Uint16Layout(w);
    StoreHalves(dst, off, w.halves, orig, e);
  }

  /** The value loop: each value little-endian at `off + 2 + 2i`. */
  method StoreHalves(dst: array<byte>, off: nat, v: seq<uint16>, ghost orig: seq<byte>, ghost e: seq<byte>)
    requires |orig| == dst.Length && off + |e| <= |orig| && |e| == HeaderSize + 2 * |v|
    requires forall i :: 0 <= i < |v| ==> e[HeaderSize + 2 * i..HeaderSize + 2 * i + 2] == PutUint16(v[i])
    requires dst[..] == orig[..off] + e[..HeaderSize] + orig[off + HeaderSize..]
    modifies dst
    ensures dst[..] == orig[..off] + e + orig[off + |e|..]
  {
    var i := 0;
    while i < |v|
      invariant 0 <= i <= |v|
      invariant dst[..] == orig[..off] + e[..HeaderSize + 2 * i] + orig[off + HeaderSize + 2 * i..]
    {
      StoreNext(dst, PutUint16(v[i]), orig, e, off, HeaderSize + 2 * i);
      i := i + 1;
    }
    assert e[..|e|] == e;
  }


  /** `Uint16.write`: the header, then each value little-endian. */
  method WriteUint16(w: Setting, dst: array<byte>, off: nat) returns (r: Result<nat, Error>)
    requires w.Uint16? && off <= dst.Length
    modifies dst
    ensures r == WriteResult(w, dst.Length - off)
    ensures r.Success? ==> dst[..] == old(dst[..off]) + Encoding(w) + old(dst[off + Size(w)..])
    ensures r.Failure? ==> dst[..] == old(dst[..])
  {
    var n := |w.halves|;
    if w.typ as int >= |SettingTypes| || SettingTypes[w.typ].n as int != n || SettingTypes[w.typ].size != Uint16Size {
      return Failure(InvalidSettingType(w.typ));
    }
    if dst.Length - off < Size(w) {
      return Failure(DstTooShort);
    }
    FillUint16(w, dst, off);
    return Success(Size(w));
  }

  /** Stores the encoding of a record at `off`, as the second half of
      `Float32.write` does once the checks have passed. */
  method FillFloat32(w: Setting, dst: array<byte>, off: nat)
    requires w.Float32? && off + Size(w) <= dst.Length
    modifies dst
    ensures dst[..] == old(dst[..off]) + Encoding(w) + old(dst[off + Size(w)..])
  {
    var n := |w.words|;
    ghost var e := Encoding(w);
    ghost var orig := dst[..];
    assert orig[..off] + e[..0] + orig[off..] == orig;
    StoreNext(dst, [w.typ, n % 256], orig, e, off, 0);
    Float32Layout(w);
    StoreWords(dst, off, w.words, orig, e);
  }

  /** The value loop: each value little-endian at `off + 2 + 4i`. */
  method StoreWords(dst: array<byte>, off: nat, v: seq<uint32>, ghost orig: seq<byte>, ghost e: seq<byte>)
    requires |orig| == dst.Length && off + |e| <= |orig| && |e| == HeaderSize + 4 * |v|
    requires forall i :: 0 <= i < |v| ==> e[HeaderSize + 4 * i..HeaderSize + 4 * i + 4] == PutUint32(v[i])
    requires dst[..] == orig[..off] + e[..HeaderSize] + orig[off + HeaderSize..]
    modifies dst
    ensures dst[..] == orig[..off] + e + orig[off + |e|..]
  {
    var i := 0;
    while i < |v|
      invariant 0 <= i <= |v|
      invariant dst[..] == orig[..off] + e[..HeaderSize + 4 * i] + orig[off + HeaderSize + 4 * i..]
    {
      StoreNext(dst, PutUint32(v[i]), orig, e, off, HeaderSize + 4 * i);
      i := i + 1;
    }
    assert e[..|e|] == e;
  }


  /** `Float32.write`: the header, then each bit pattern little-endian. */
  method WriteFloat32(w: Setting, dst: array<byte>, off: nat) returns (r: Result<nat, Error>)
    requires w.Float32? && off <= dst.Length
    modifies dst
    ensures r == WriteResult(w, dst.Length - off)
    ensures r.Success? ==> dst[..] == old(dst[..off]) + Encoding(w) + old(dst[off + Size(w)..])
    ensures r.Failure? ==> dst[..] == old(dst[..])
  {
    var n := |w.words|;
    if w.typ as int >= |SettingTypes| || SettingTypes[w.typ].n as int != n || SettingTypes[w.typ].size != Float32Size {
      return Failure(InvalidSettingType(w.typ));
    }
    if dst.Length - off < Size(w) {
      return Failure(DstTooShort);
    }
    FillFloat32(w, dst, off);
    return Success(Size(w));
  }

  /** A setting's `write`, by its record type. */
  method WriteSetting(w: Setting, dst: array<byte>, off: nat) returns (r: Result<nat, Error>)
    requires off <= dst.Length
    modifies dst
    ensures r == WriteResult(w, dst.Length - off)
    ensures r.Success? ==> dst[..] == old(dst[..off]) + Encoding(w) + old(dst[off + Size(w)..])
    ensures r.Failure? ==> dst[..] == old(dst[..])
  {
    match w
    case Uint8(_, _) => r := WriteUint8(w, dst, off);
    case Uint16(_, _) => r := WriteUint16(w, dst, off);
    case Float32(_, _) => r := WriteFloat32(w, dst, off);
  }

  /** The record the `UnmarshalBinary` of `recv`'s record type reads from
      the front of `data`: the type byte, the count byte and that many
      little-endian values, with no check against the setting table. */
  function Decode(recv: Setting, data: seq<byte>): (r: Result<Setting, Error>)
    ensures r.Success? ==>
      HeaderSize <= Size(r.value) <= |data| && SameKind(r.value, recv)
      && r.value.typ == data[0] && Count(r.value) == data[1]
    ensures r.Failure? ==> r.error == UnexpectedEOF
  {
    if |data| < HeaderSize then Failure(UnexpectedEOF)
    else
      var n := data[1] as int;
      match recv
      case Uint8(_, _) =>
        if |data| < HeaderSize + n then Failure(UnexpectedEOF)
        else Success(Uint8(data[0], data[HeaderSize..HeaderSize + n]))
      case Uint16(_, _) =>
        if |data| < HeaderSize + 2 * n then Failure(UnexpectedEOF)
        else Success(Uint16(data[0], Halves(data, n)))
      case Float32(_, _) =>
        if |data| < HeaderSize + 4 * n then Failure(UnexpectedEOF)
        else Success(Float32(data[0], Words(data, n)))
  }

  /** The `n` little-endian 16-bit values after the header. */
  function Halves(data: seq<byte>, n: nat): (v: seq<uint16>)
    requires HeaderSize + 2 * n <= |data|
    ensures |v| == n && forall i :: 0 <= i < n ==> v[i] == LeUint16(data[HeaderSize + 2 * i..])
  {
    seq(n, i requires 0 <= i < n => LeUint16(data[HeaderSize + 2 * i..]))
  }

  /** Values whose bytes stand one after another after the header of a
      prefix `e` of the data are read back as those values. */
  lemma HalvesOf(data: seq<byte>, e: seq<byte>, v: seq<uint16>)
    requires HeaderSize + 2 * |v| <= |e| <= |data| && data[..|e|] == e
    requires forall i :: 0 <= i < |v| ==> e[HeaderSize + 2 * i..HeaderSize + 2 * i + 2] == PutUint16(v[i])
    ensures Halves(data, |v|) == v
  {
    forall i | 0 <= i < |v|
      ensures Halves(data, |v|)[i] == v[i]
    {
      var at := HeaderSize + 2 * i;
      assert data[at..at + 2] == e[at..at + 2];
      LeUint16At(data, at, PutUint16(v[i]));
    }
  }

  lemma WordsOf(data: seq<byte>, e: seq<byte>, v: seq<uint32>)
    requires HeaderSize + 4 * |v| <= |e| <= |data| && data[..|e|] == e
    requires forall i :: 0 <= i < |v| ==> e[HeaderSize + 4 * i..HeaderSize + 4 * i + 4] == PutUint32(v[i])
    ensures Words(data, |v|) == v
  {
    forall i | 0 <= i < |v|
      ensures Words(data, |v|)[i] == v[i]
    {
      var at := HeaderSize + 4 * i;
      assert data[at..at + 4] == e[at..at + 4];
      LeUint32At(data, at, PutUint32(v[i]));
    }
  }

  /** The `n` little-endian 32-bit bit patterns after the header. */
  function Words(data: seq<byte>, n: nat): (v: seq<uint32>)
    requires HeaderSize + 4 * n <= |data|
    ensures |v| == n && forall i :: 0 <= i < n ==> v[i] == LeUint32(data[HeaderSize + 4 * i..])
  {
    seq(n, i requires 0 <= i < n => LeUint32(data[HeaderSize + 4 * i..]))
  }

  /** The receiver after `UnmarshalBinary`, and the error it returned: on
      an error the receiver keeps its old value. */
  function Unmarshaled(recv: Setting, data: seq<byte>): (Setting, Option<Error>)
  {
    match Decode(recv, data)
    case Success(s) => (s, None)
    case Failure(e) => (recv, Some(e))
  }

  /** `Uint8.UnmarshalBinary`. */
  method UnmarshalUint8(recv: Setting, data: seq<byte>) returns (out: Setting, err: Option<Error>)
    requires recv.Uint8?
    ensures (out, err) == Unmarshaled(recv, data)
  {
    if |data| < HeaderSize {
      return recv, Some(UnexpectedEOF);
    }
    var n := data[1] as int;
    if |data| < HeaderSize + n {
      return recv, Some(UnexpectedEOF);
    }
    return Uint8(data[0], data[HeaderSize..HeaderSize + n]), None;
  }

  /** `Uint16.UnmarshalBinary`: reads the values one by one from a
      shrinking slice. */
  method UnmarshalUint16(recv: Setting, data: seq<byte>) returns (out: Setting, err: Option<Error>)
    requires recv.Uint16?
    ensures (out, err) == Unmarshaled(recv, data)
  {
    if |data| < HeaderSize {
      return recv, Some(UnexpectedEOF);
    }
    var n := data[1] as int;
    if |data| < HeaderSize + 2 * n {
      return recv, Some(UnexpectedEOF);
    }
    var val := new uint16[n];
    var rest := data[HeaderSize..];
    for i := 0 to n
      invariant rest == data[HeaderSize + 2 * i..]
      invariant forall k :: 0 <= k < i ==> val[k] == LeUint16(data[HeaderSize + 2 * k..])
    {
      val[i] := LeUint16(rest);
      rest := rest[2..];
    }
    assert val[..] == Halves(data, n);
    out, err := Uint16(data[0], val[..]), None;
  }

  /** `Float32.UnmarshalBinary`: reads the bit patterns one by one from a
      shrinking slice. */
  method UnmarshalFloat32(recv: Setting, data: seq<byte>) returns (out: Setting, err: Option<Error>)
    requires recv.Float32?
    ensures (out, err) == Unmarshaled(recv, data)
  {
    if |data| < HeaderSize {
      return recv, Some(UnexpectedEOF);
    }
    var n := data[1] as int;
    if |data| < HeaderSize + 4 * n {
      return recv, Some(UnexpectedEOF);
    }
    var val := new uint32[n];
    var rest := data[HeaderSize..];
    for i := 0 to n
      invariant rest == data[HeaderSize + 4 * i..]
      invariant forall k :: 0 <= k < i ==> val[k] == LeUint32(data[HeaderSize + 4 * k..])
    {
      val[i] := LeUint32(rest);
      rest := rest[4..];
    }
    assert val[..] == Words(data, n);
    out, err := Float32(data[0], val[..]), None;
  }

  /** A setting's `UnmarshalBinary`, by the receiver's record type. */
  method UnmarshalSetting(recv: Setting, data: seq<byte>) returns (out: Setting, err: Option<Error>)
    ensures (out, err) == Unmarshaled(recv, data)
  {
    match recv
    case Uint8(_, _) => out, err := UnmarshalUint8(recv, data);
    case Uint16(_, _) => out, err := UnmarshalUint16(recv, data);
    case Float32(_, _) => out, err := UnmarshalFloat32(recv, data);
  }

  /** The zero record of the kind the table gives a type byte, or None
      when the type is past the table, has no entry, or has an unknown kind. */
  function Blank(t: byte): Option<Setting>
  {
    if t as int >= |SettingTypes| then None
    else
      var kind := SettingTypes[t].kind;
      if kind == Uint8Kind then Some(Uint8(0, []))
      else if kind == Uint16Kind then Some(Uint16(0, []))
      else if kind == Float32Kind then Some(Float32(0, []))
      else None
  }

  /** The records read so far, and the error that stopped the reading. */
  datatype Parsed = Parsed(settings: seq<Setting>, err: Option<Error>)

  /** `parseSetting`: records one after another, each consuming its size,
      until the data ends or a record cannot be read. */
  function Parse(data: seq<byte>): Parsed
    decreases |data|
  {
    if |data| == 0 then Parsed([], None)
    else match Blank(data[0])
      case None => Parsed([], Some(UnknownSettingType(data[0])))
      case Some(zero) =>
        match Decode(zero, data)
        case Failure(e) => Parsed([], Some(e))
        case Success(s) =>
          var rest := Parse(data[Size(s)..]);
          Parsed([s] + rest.settings, rest.err)
  }

  /** `parseSetting`: a loop over a shrinking slice, appending each record. */
  method ParseSetting(data: seq<byte>) returns (settings: seq<Setting>, err: Option<Error>)
    ensures Parsed(settings, err) == Parse(data)
  {
    settings := [];
    var rest := data;
    while |rest| != 0
      invariant Parse(data) == Parsed(settings + Parse(rest).settings, Parse(rest).err)
      decreases |rest|
    {
      var zero := Blank(rest[0]);
      if zero.None? {
        return settings, Some(UnknownSettingType(rest[0]));
      }
      var record, e := UnmarshalSetting(zero.value, rest);
      if e.Some? {
        return settings, e;
      }
      assert Parse(rest) == Parsed([record] + Parse(rest[Size(record)..]).settings, Parse(rest[Size(record)..]).err);
      rest := rest[Size(record)..];
      settings := settings + [record];
    }
    err := None;
  }

  // ---------------------------------------------------------------------
  // Runs of records

  /** The records' encodings, one after another. */
  function EncodeAll(ss: seq<Setting>): seq<byte>
  {
    if ss == [] then [] else Encoding(ss[0]) + EncodeAll(ss[1..])
  }

  /** `settingSize`: the sum of the records' sizes. Every record takes at
      least its header. */
  function SettingsSize(ss: seq<Setting>): (n: nat)
    ensures n >= HeaderSize * |ss|
  {
    if ss == [] then 0 else Size(ss[0]) + SettingsSize(ss[1..])
  }

  /** An accepted record is read back, by the table's kind for its type, as
      itself from the front of any data that starts with its encoding. */
  lemma DecodeEncoding(s: Setting, tail: seq<byte>)
    requires Accepted(s)
    ensures Blank(s.typ).Some? && SameKind(Blank(s.typ).value, s)
    ensures Decode(Blank(s.typ).value, Encoding(s) + tail) == Success(s)
  {
    BlankOfAccepted(s);
    assert (Encoding(s) + tail)[..Size(s)] == Encoding(s);
    match s
    case Uint8(t, v) =>
      var data := Encoding(s) + tail;
      assert data[HeaderSize..HeaderSize + |v|] == v;
    case Uint16(t, v) => DecodeUint16(s, Encoding(s) + tail);
    case Float32(t, v) => DecodeFloat32(s, Encoding(s) + tail);
  }

  /** The table gives an accepted record's type the record's own kind. */
  lemma BlankOfAccepted(s: Setting)
    requires Accepted(s)
    ensures Blank(s.typ).Some? && SameKind(Blank(s.typ).value, s)
    ensures s.Uint16? ==> Blank(s.typ) == Some(Uint16(0, []))
    ensures s.Float32? ==> Blank(s.typ) == Some(Float32(0, []))
  {
    var e := SettingTypes[s.typ];
    if s.typ <= 2 {
      assert e == TableEntry(Uint16Kind, 1, Uint16Size);
    } else if s.typ == 3 {
      assert false;
    } else if s.typ == 4 {
      assert e == TableEntry(Uint8Kind, 1, Uint8Size);
    } else {
      assert e == TableEntry(Float32Kind, 1, Float32Size);
    }
  }

  lemma DecodeUint16(s: Setting, data: seq<byte>)
    requires s.Uint16? && |s.halves| < 256 && Size(s) <= |data| && data[..Size(s)] == Encoding(s)
    ensures Decode(Uint16(0, []), data) == Success(s)
  {
    assert data[0] == s.typ && data[1] == |s.halves|;
    Uint16Layout(s);
    HalvesOf(data, Encoding(s), s.halves);
  }

  lemma DecodeFloat32(s: Setting, data: seq<byte>)
    requires s.Float32? && |s.words| < 256 && Size(s) <= |data| && data[..Size(s)] == Encoding(s)
    ensures Decode(Float32(0, []), data) == Success(s)
  {
    assert data[0] == s.typ && data[1] == |s.words|;
    Float32Layout(s);
    WordsOf(data, Encoding(s), s.words);
  }

  /** One step of `parseSetting` over a record it can read. */
  lemma ParseStep(data: seq<byte>, s: Setting)
    requires |data| > 0 && Blank(data[0]).Some? && Decode(Blank(data[0]).value, data) == Success(s)
    ensures Parse(data) == Parsed([s] + Parse(data[Size(s)..]).settings, Parse(data[Size(s)..]).err)
  {
  }

  /** `parseSetting` reads an accepted record and goes on after it. */
  lemma ParseAccepted(s: Setting, after: seq<byte>)
    requires Accepted(s)
    ensures Parse(Encoding(s) + after) == Parsed([s] + Parse(after).settings, Parse(after).err)
  {
    var data := Encoding(s) + after;
    DecodeEncoding(s, after);
    assert data[0] == s.typ;
    assert data[Size(s)..] == after;
    ParseStep(data, s);
  }

  /** `parseSetting` of a run of accepted records followed by anything reads
      exactly those records, in order, and then carries on with what follows. */
  lemma {:induction false} ParseEncodeAll(ss: seq<Setting>, tail: seq<byte>)
    requires forall i :: 0 <= i < |ss| ==> Accepted(ss[i])
    ensures Parse(EncodeAll(ss) + tail) == Parsed(ss + Parse(tail).settings, Parse(tail).err)
  {
    if ss != [] {
      ParseEncodeAll(ss[1..], tail);
      ParseEncodeAllCons(ss, tail);
    } else {
      assert EncodeAll(ss) + tail == tail;
      assert ss + Parse(tail).settings == Parse(tail).settings;
    }
  }

  lemma EncodeAllCons(ss: seq<Setting>, tail: seq<byte>)
    requires ss != []
    ensures EncodeAll(ss) + tail == Encoding(ss[0]) + (EncodeAll(ss[1..]) + tail)
  {
  }

  lemma ParseEncodeAllCons(ss: seq<Setting>, tail: seq<byte>)
    requires ss != [] && Accepted(ss[0])
    requires Parse(EncodeAll(ss[1..]) + tail) == Parsed(ss[1..] + Parse(tail).settings, Parse(tail).err)
    ensures Parse(EncodeAll(ss) + tail) == Parsed(ss + Parse(tail).settings, Parse(tail).err)
  {
    var s, rest := ss[0], ss[1..];
    var after := EncodeAll(rest) + tail;
    var p := Parse(tail);
    EncodeAllCons(ss, tail);
    ParseAccepted(s, after);
    ConsAppend(ss, p.settings);
  }

  /** `settingSize` of a run is the length of its encoding. */
  lemma {:induction false} SettingsSizeIsLength(ss: seq<Setting>)
    ensures SettingsSize(ss) == |EncodeAll(ss)|
  {
    if ss != [] {
      SettingsSizeIsLength(ss[1..]);
    }
  }

  /** Reading stops at the first record whose type has no table entry,
      keeping the records read before it. */
  /** Reading stops with `io.ErrUnexpectedEOF` at a record of a known type
      that is cut short, returning the records read before it. */
  lemma ParseStopsAtShortRecord(ss: seq<Setting>, tail: seq<byte>)
    requires forall i :: 0 <= i < |ss| ==> Accepted(ss[i])
    requires |tail| > 0 && Blank(tail[0]).Some?
    requires |tail| < HeaderSize || |tail| < HeaderSize + SettingTypes[tail[0]].size as int * tail[1] as int
    ensures Parse(EncodeAll(ss) + tail) == Parsed(ss, Some(UnexpectedEOF))
  {
    ShortRecord(tail);
    ParseEncodeAll(ss, tail);
    assert ss + [] == ss;
  }

  /** A record of a known type cut short is read as nothing but the error. */
  lemma ShortRecord(data: seq<byte>)
    requires |data| > 0 && Blank(data[0]).Some?
    requires |data| < HeaderSize || |data| < HeaderSize + SettingTypes[data[0]].size as int * data[1] as int
    ensures Parse(data) == Parsed([], Some(UnexpectedEOF))
  {
    var zero := Blank(data[0]).value;
    assert Decode(zero, data) == Failure(UnexpectedEOF) by {
      if |data| >= HeaderSize {
        var e := SettingTypes[data[0]];
        assert zero.Uint8? ==> e.size == Uint8Size;
        assert zero.Uint16? ==> e.size == Uint16Size;
        assert zero.Float32? ==> e.size == Float32Size;
      }
    }
  }

  lemma ParseStopsAtUnknownType(ss: seq<Setting>, tail: seq<byte>)
    requires forall i :: 0 <= i < |ss| ==> Accepted(ss[i])
    requires |tail| > 0 && (tail[0] >= 6 || tail[0] == 3)
    ensures Parse(EncodeAll(ss) + tail) == Parsed(ss, Some(UnknownSettingType(tail[0])))
  {
    ParseEncodeAll(ss, tail);
  }

  /** A run of accepted records, read back in full. */
  lemma ParseRoundTrip(ss: seq<Setting>)
    requires forall i :: 0 <= i < |ss| ==> Accepted(ss[i])
    ensures Parse(EncodeAll(ss)) == Parsed(ss, None)
  {
    ParseEncodeAll(ss, []);
    assert EncodeAll(ss) + [] == EncodeAll(ss);
  }

  // ---------------------------------------------------------------------
  // Command messages

  /** `setCommand`: the command, recording type and measurement type. */
  datatype SetCommand = SetCommand(command: byte, record: byte, measure: byte)

  /** `byte(Record)<<7 | byte(Measure)`: the shift drops all but the lowest
      bit of the recording type. */
  function PrefaceByte(record: byte, measure: byte): byte
  {
    (((record as bv8) << 7) | (measure as bv8)) as byte
  }

  /** The two bytes `setCommand.write` stores. */
  function Preface(c: SetCommand): seq<byte>
  {
    [c.command, PrefaceByte(c.record, c.measure)]
  }

  /** A recording type of 0 or 1 and a measurement type below 128 are both
      recovered from the second preface byte: the recording type from the
      top bit, the measurement type from the low seven bits. */
  lemma PrefaceByteFields(record: byte, measure: byte)
    requires record < 2 && measure < 128
    ensures PrefaceByte(record, measure) == 128 * record + measure
    ensures PrefaceByte(record, measure) / 128 == record
    ensures PrefaceByte(record, measure) % 128 == measure
  {
    var r, m := record as bv8, measure as bv8;
    assert (r << 7) | m == (r << 7) + m by {
      assert (r << 7) & m == 0;
    }
  }

  /** `setCommand.write` into dst from `off` on. */
  method WritePreface(c: SetCommand, dst: array<byte>, off: nat) returns (r: Result<nat, Error>)
    requires off <= dst.Length
    modifies dst
    ensures dst.Length - off < 2 ==> r == Failure(DstTooShort) && dst[..] == old(dst[..])
    ensures dst.Length - off >= 2 ==>
      r == Success(2) && dst[..] == old(dst[..off]) + Preface(c) + old(dst[off + 2..])
  {
    if dst.Length - off < 2 {
      return Failure(DstTooShort);
    }
    dst[off] := c.command;
    dst[off + 1] := (((c.record as bv8) << 7) | (c.measure as bv8)) as byte;
    assert dst[..] == old(dst[..off]) + Preface(c) + old(dst[off + 2..]);
    return Success(2);
  }

  /** The first record `write` rejects, if any. */
  function FirstRejected(ss: seq<Setting>): Option<Setting>
  {
    if ss == [] then None
    else if !Accepted(ss[0]) then Some(ss[0])
    else FirstRejected(ss[1..])
  }

  /** The message `sendCommand` writes to the control point, or the error
      of the first record that fails to write. */
  function Message(c: SetCommand, ss: seq<Setting>): Result<seq<byte>, Error>
  {
    match FirstRejected(ss)
    case Some(s) => Failure(InvalidSettingType(s.typ))
    case None => Success(Preface(c) + EncodeAll(ss))
  }

  lemma {:induction false} FirstRejectedFound(ss: seq<Setting>)
    ensures FirstRejected(ss).None? <==> forall i :: 0 <= i < |ss| ==> Accepted(ss[i])
    ensures FirstRejected(ss).Some? ==> exists i :: 0 <= i < |ss| && ss[i] == FirstRejected(ss).value && !Accepted(ss[i])
  {
    if ss != [] {
      FirstRejectedFound(ss[1..]);
      if FirstRejected(ss).Some? && Accepted(ss[0]) {
        var i :| 0 <= i < |ss[1..]| && ss[1..][i] == FirstRejected(ss).value && !Accepted(ss[1..][i]);
        assert ss[i + 1] == ss[1..][i];
      }
      if forall i :: 0 <= i < |ss[1..]| ==> Accepted(ss[1..][i]) {
        assert forall i :: 1 <= i < |ss| ==> ss[i] == ss[1..][i - 1];
      }
    }
  }

  /** A command message is built exactly when every record passes the
      table check; it is then the preface followed by the records, its
      length is two plus `settingSize`, and the records read back from it
      are the records sent. Otherwise the error names a rejected record. */
  lemma MessageWellFormed(c: SetCommand, ss: seq<Setting>)
    ensures Message(c, ss).Success? <==> forall i :: 0 <= i < |ss| ==> Accepted(ss[i])
    ensures Message(c, ss).Failure? ==>
      exists i :: 0 <= i < |ss| && !Accepted(ss[i]) && Message(c, ss).error == InvalidSettingType(ss[i].typ)
    ensures Message(c, ss).Success? ==>
      |Message(c, ss).value| == 2 + SettingsSize(ss)
      && Message(c, ss).value[..2] == Preface(c)
      && Parse(Message(c, ss).value[2..]) == Parsed(ss, None)
  {
    FirstRejectedFound(ss);
    SettingsSizeIsLength(ss);
    if Message(c, ss).Success? {
      assert Message(c, ss).value[2..] == EncodeAll(ss);
      ParseRoundTrip(ss);
    }
  }

  lemma {:induction false} EncodeAllAppend(a: seq<Setting>, b: seq<Setting>)
    ensures EncodeAll(a + b) == EncodeAll(a) + EncodeAll(b)
    ensures SettingsSize(a + b) == SettingsSize(a) + SettingsSize(b)
    ensures FirstRejected(a + b) == if FirstRejected(a).Some? then FirstRejected(a) else FirstRejected(b)
  {
    if a == [] {
      assert a + b == b;
    } else {
      assert (a + b)[1..] == a[1..] + b;
      EncodeAllAppend(a[1..], b);
    }
  }

  /** What the sensor did after the message was written: notified a
      response, or let the deadline pass. */
  datatype Reply = Notified(bytes: seq<byte>) | TimedOut

  /** What the `i`-th step of the framing loop needs to know about the
      records before it and the record it writes. */
  lemma MessageStep(ss: seq<Setting>, i: nat)
    requires i < |ss| && FirstRejected(ss[..i]) == None
    ensures EncodeAll(ss[..i + 1]) == EncodeAll(ss[..i]) + Encoding(ss[i])
    ensures SettingsSize(ss[..i + 1]) == SettingsSize(ss[..i]) + Size(ss[i]) <= SettingsSize(ss)
    ensures FirstRejected(ss[..i + 1]) == if Accepted(ss[i]) then None else Some(ss[i])
    ensures !Accepted(ss[i]) ==> FirstRejected(ss) == Some(ss[i])
  {
    var a, x, b := ss[..i], ss[i], ss[i + 1..];
    TakeSnoc(ss, i);
    TakeDrop(ss, i + 1);
    EncodeAllAppend(a, [x]);
    OneRecord(x);
    EncodeAllAppend(a + [x], b);
  }

  /** A run of one record. */
  lemma OneRecord(x: Setting)
    ensures EncodeAll([x]) == Encoding(x) && SettingsSize([x]) == Size(x)
    ensures FirstRejected([x]) == if Accepted(x) then None else Some(x)
  {
    assert [x][1..] == [];
  }

  /** One turn of the framing loop: the `i`-th record's `write` at `off`. */
  method AppendRecord(c: SetCommand, ss: seq<Setting>, i: nat, msg: array<byte>, off: nat)
    returns (r: Result<nat, Error>)
    requires i < |ss| && FirstRejected(ss[..i]) == None
    requires off == 2 + SettingsSize(ss[..i]) <= msg.Length == 2 + SettingsSize(ss)
    requires msg[..off] == Preface(c) + EncodeAll(ss[..i])
    modifies msg
    ensures r.Failure? ==> Message(c, ss) == Failure(r.error)
    ensures r.Success? ==>
      FirstRejected(ss[..i + 1]) == None && off + r.value == 2 + SettingsSize(ss[..i + 1]) <= msg.Length
      && msg[..off + r.value] == Preface(c) + EncodeAll(ss[..i + 1])
  {
    ghost var before := msg[..];
    r := WriteSetting(ss[i], msg, off);
    AppendOutcome(c, ss, i, off, r, before, msg[..]);
  }

  /** The outcome of the `i`-th record's `write`, on the buffer's contents
      before (`was`) and after (`now`). */
  lemma AppendOutcome(c: SetCommand, ss: seq<Setting>, i: nat, off: nat, r: Result<nat, Error>,
                      was: seq<byte>, now: seq<byte>)
    requires i < |ss| && FirstRejected(ss[..i]) == None
    requires off == 2 + SettingsSize(ss[..i]) <= |was| == 2 + SettingsSize(ss)
    requires was[..off] == Preface(c) + EncodeAll(ss[..i])
    requires r == WriteResult(ss[i], |was| - off)
    requires r.Success? ==> now == was[..off] + Encoding(ss[i]) + was[off + Size(ss[i])..]
    ensures r.Failure? ==> Message(c, ss) == Failure(r.error)
    ensures r.Success? ==>
      FirstRejected(ss[..i + 1]) == None && off + r.value == 2 + SettingsSize(ss[..i + 1]) <= |was|
      && now[..off + r.value] == Preface(c) + EncodeAll(ss[..i + 1])
  {
    RoomFor(ss, i);
    if r.Success? {
      AppendAccepted(c, ss, i, off, was, now);
    } else {
      AppendRejected(c, ss, i);
    }
  }

  /** The records before the `i`-th and the `i`-th itself fit in the total. */
  lemma RoomFor(ss: seq<Setting>, i: nat)
    requires i < |ss| && FirstRejected(ss[..i]) == None
    ensures SettingsSize(ss[..i]) + Size(ss[i]) <= SettingsSize(ss)
  {
    MessageStep(ss, i);
  }

  lemma AppendAccepted(c: SetCommand, ss: seq<Setting>, i: nat, off: nat, was: seq<byte>, now: seq<byte>)
    requires i < |ss| && FirstRejected(ss[..i]) == None && Accepted(ss[i])
    requires off == 2 + SettingsSize(ss[..i]) && off + Size(ss[i]) <= |was| == 2 + SettingsSize(ss)
    requires was[..off] == Preface(c) + EncodeAll(ss[..i])
    requires now == was[..off] + Encoding(ss[i]) + was[off + Size(ss[i])..]
    ensures FirstRejected(ss[..i + 1]) == None && off + Size(ss[i]) == 2 + SettingsSize(ss[..i + 1])
    ensures now[..off + Size(ss[i])] == Preface(c) + EncodeAll(ss[..i + 1])
  {
    MessageStep(ss, i);
    AcceptedBytes(c, ss, i, off, was, now);
  }

  /** The bytes half of `AppendAccepted`: the buffer's prefix grows by the
      record's encoding. */
  lemma AcceptedBytes(c: SetCommand, ss: seq<Setting>, i: nat, off: nat, was: seq<byte>, now: seq<byte>)
    requires i < |ss| && off + Size(ss[i]) <= |was|
    requires was[..off] == Preface(c) + EncodeAll(ss[..i])
    requires now == was[..off] + Encoding(ss[i]) + was[off + Size(ss[i])..]
    ensures now[..off + Size(ss[i])] == Preface(c) + EncodeAll(ss[..i + 1])
  {
    EncodeStep(ss, i);
    Appended(now, was, off, Encoding(ss[i]), Size(ss[i]), Preface(c), EncodeAll(ss[..i]), EncodeAll(ss[..i + 1]));
  }

  /** The encoding of the first `i + 1` records extends that of the first `i`. */
  lemma EncodeStep(ss: seq<Setting>, i: nat)
    requires i < |ss|
    ensures EncodeAll(ss[..i + 1]) == EncodeAll(ss[..i]) + Encoding(ss[i])
  {
    TakeSnoc(ss, i);
    EncodeAllAppend(ss[..i], [ss[i]]);
    OneRecord(ss[i]);
  }

  lemma AppendRejected(c: SetCommand, ss: seq<Setting>, i: nat)
    requires i < |ss| && FirstRejected(ss[..i]) == None && !Accepted(ss[i])
    ensures Message(c, ss) == Failure(InvalidSettingType(ss[i].typ))
  {
    MessageStep(ss, i);
    MessageRejects(c, ss, ss[i]);
  }

  /** The buffer after a record's encoding `e` was written at `off`, right
      after the preface `p` and the earlier records `enc`. */
  lemma Appended(now: seq<byte>, was: seq<byte>, off: nat, e: seq<byte>, k: nat, p: seq<byte>, enc: seq<byte>, enc2: seq<byte>)
    requires |e| == k && off + k <= |was| && now == was[..off] + e + was[off + k..]
    requires was[..off] == p + enc && enc2 == enc + e
    ensures now[..off + k] == p + enc2
  {
    SplicePrefix(now, was, off, e);
    Assoc(p, enc, e);
  }

  /** A rejected record makes the whole message fail with its type. */
  lemma MessageRejects(c: SetCommand, ss: seq<Setting>, w: Setting)
    requires FirstRejected(ss) == Some(w)
    ensures Message(c, ss) == Failure(InvalidSettingType(w.typ))
  {
  }

  /** The framing half of `sendCommand`: a buffer of exactly
      `2 + settingSize(settings)` bytes, filled with the preface and then
      each record in order, stopping at the first write error. */
  method BuildMessage(c: SetCommand, settings: seq<Setting>) returns (r: Result<seq<byte>, Error>)
    ensures r == Message(c, settings)
  {
    var msg := new byte[2 + SettingsSize(settings)];
    assert settings[..0] == [];
    var off := 0;
    var p := WritePreface(c, msg, off);
    off := off + p.value;
    var i := 0;
    while i < |settings|
      invariant 0 <= i <= |settings|
      invariant FirstRejected(settings[..i]) == None
      invariant off == 2 + SettingsSize(settings[..i]) <= msg.Length
      invariant msg[..off] == Preface(c) + EncodeAll(settings[..i])
    {
      var n := AppendRecord(c, settings, i, msg, off);
      if n.Failure? {
        return Failure(n.error);
      }
      off := off + n.value;
      i := i + 1;
    }
    TakeAll(settings);
    assert msg[..] == msg[..off];
    return Success(msg[..]);
  }

  /** What `sendCommand` sends, if anything, and what it returns. */
  function SendOutcome(c: SetCommand, settings: seq<Setting>, reply: Reply): (Option<seq<byte>>, seq<byte>, Option<Error>)
  {
    match Message(c, settings)
    case Failure(e) => (None, [], Some(e))
    case Success(m) =>
      match reply
      case Notified(b) => (Some(m), b, None)
      case TimedOut => (Some(m), [], Some(DeadlineExceeded))
  }

  /** `sendCommand`: frames the message and returns the first write error
      without sending anything; otherwise sends it and returns the
      response, or the deadline error. */
  method SendCommand(c: SetCommand, settings: seq<Setting>, reply: Reply)
    returns (sent: Option<seq<byte>>, resp: seq<byte>, err: Option<Error>)
    ensures (sent, resp, err) == SendOutcome(c, settings, reply)
    ensures Message(c, settings).Failure? ==>
      sent == None && resp == [] && err == Some(Message(c, settings).error)
    ensures Message(c, settings).Success? ==> sent == Some(Message(c, settings).value)
    ensures Message(c, settings).Success? && reply.Notified? ==> resp == reply.bytes && err == None
    ensures Message(c, settings).Success? && reply.TimedOut? ==> resp == [] && err == Some(DeadlineExceeded)
  {
    var msg := BuildMessage(c, settings);
    if msg.Failure? {
      return None, [], Some(msg.error);
    }
    sent := Some(msg.value);
    match reply
    case Notified(b) => resp, err := b, None;
    case TimedOut => resp, err := [], Some(DeadlineExceeded);
  }

  // ---------------------------------------------------------------------
  // Querying settings

  /** The bytes the control point notified; nothing when the deadline passed. */
  function Received(reply: Reply): seq<byte>
  {
    match reply
    case Notified(b) => b
    case TimedOut => []
  }

  /** The checks `querySettings` makes of a control-point response: at
      least five bytes, the response code 0xF0, the echoed command, and a
      zero status in byte 3; the records start at byte 5. */
  function CheckResponse(com: byte, resp: seq<byte>): Result<seq<byte>, Error>
  {
    if |resp| < 5 then Failure(ShortResponse(resp))
    else if resp[0] != 0xF0 || resp[1] != com then Failure(InvalidResponse(resp))
    else if resp[3] != 0 then Failure(InvalidResponse(resp[..5]))
    else Success(resp[5..])
  }

  /** What `querySettings` returns for a reply. The deadline error itself is
      never returned: a missed deadline leaves no response, which fails the
      length check. */
  function QueryOutcome(com: byte, reply: Reply): Parsed
  {
    match CheckResponse(com, Received(reply))
    case Failure(e) => Parsed([], Some(e))
    case Success(records) => Parse(records)
  }

  /** `querySettings`: writes the preface, then checks the response and
      reads its records. */
  method QuerySettings(c: SetCommand, reply: Reply) returns (sent: seq<byte>, settings: seq<Setting>, err: Option<Error>)
    ensures sent == Preface(c)
    ensures Parsed(settings, err) == QueryOutcome(c.command, reply)
  {
    var msg := new byte[2];
    var _ := WritePreface(c, msg, 0);
    sent := msg[..];
    var resp := match reply case Notified(b) => b case TimedOut => [];
    if |resp| < 5 {
      return sent, [], Some(ShortResponse(resp));
    }
    if resp[0] != 0xF0 || resp[1] != c.command {
      return sent, [], Some(InvalidResponse(resp));
    }
    if resp[3] != 0 {
      return sent, [], Some(InvalidResponse(resp[..5]));
    }
    settings, err := ParseSetting(resp[5..]);
  }

  /** A response that echoes the command with a zero status yields exactly
      the accepted records it carries. */
  lemma QueryRoundTrip(com: byte, b2: byte, b4: byte, ss: seq<Setting>)
    requires forall i :: 0 <= i < |ss| ==> Accepted(ss[i])
    ensures QueryOutcome(com, Notified([0xF0, com, b2, 0, b4] + EncodeAll(ss))) == Parsed(ss, None)
  {
    QueryAccepts(com, b2, b4, EncodeAll(ss));
    ParseRoundTrip(ss);
  }

  /** A response that passes the checks yields what `parseSetting` makes
      of the bytes after its five-byte header. */
  lemma QueryAccepts(com: byte, b2: byte, b4: byte, records: seq<byte>)
    ensures QueryOutcome(com, Notified([0xF0, com, b2, 0, b4] + records)) == Parse(records)
  {
    assert ([0xF0, com, b2, 0, b4] + records)[5..] == records;
  }

  /** Any other response code, command or status is an invalid response,
      and a missed deadline is reported as a short, empty response. */
  lemma QueryRejects(com: byte, r: seq<byte>)
    ensures |r| >= 5 && (r[0] != 0xF0 || r[1] != com || r[3] != 0) ==>
      QueryOutcome(com, Notified(r)).settings == [] && QueryOutcome(com, Notified(r)).err.Some?
      && QueryOutcome(com, Notified(r)).err.value.InvalidResponse?
    ensures QueryOutcome(com, TimedOut) == Parsed([], Some(ShortResponse([])))
  {
  }

  // ---------------------------------------------------------------------
  // Samples and timestamps

  /** `leInt24`: bytes 0 and 1 fill bits 0 to 15 and the sign-extended byte
      2 fills bits 16 to 31 of a 32-bit word; as the three parts occupy
      disjoint bits, the bitwise or of the source is their sum. Go panics
      when there are fewer than three bytes. */
  function LeInt24(b: seq<byte>): (v: int)
    requires |b| >= 3
    ensures -0x80_0000 <= v < 0x80_0000
    ensures v == b[0] as int + 0x100 * b[1] as int + 0x1_0000 * b[2] as int - (if b[2] >= 0x80 then 0x100_0000 else 0)
  {
    b[0] as int + 0x100 * b[1] as int + 0x1_0000 * Int8(b[2])
  }

  /** The three bytes of a 24-bit two's-complement number, low byte first. */
  function PutInt24(v: int): (b: seq<byte>)
    requires -0x80_0000 <= v < 0x80_0000
    ensures |b| == 3
  {
    var u := if v < 0 then v + 0x100_0000 else v;
    [u % 0x100, (u / 0x100) % 0x100, u / 0x1_0000]
  }

  /** `leInt24` reads back every 24-bit value, and every three bytes are
      the encoding of what it reads from them. */
  lemma LeInt24RoundTrip(v: int, b: seq<byte>)
    requires -0x80_0000 <= v < 0x80_0000 && |b| == 3
    ensures LeInt24(PutInt24(v)) == v
    ensures PutInt24(LeInt24(b)) == b
  {
    var u := if v < 0 then v + 0x100_0000 else v;
    var lo, mid, hi := u % 0x100, (u / 0x100) % 0x100, u / 0x1_0000;
    assert u / 0x100 == 0x100 * hi + mid;
    assert u == 0x1_0000 * hi + 0x100 * mid + lo;
    assert hi >= 0x80 <==> v < 0;
    var w := b[0] as int + 0x100 * b[1] as int + 0x1_0000 * b[2] as int;
    assert w % 0x100 == b[0] && w / 0x100 == b[1] as int + 0x100 * b[2] as int;
    assert (w / 0x100) % 0x100 == b[1] && w / 0x1_0000 == b[2];
  }

  /** A point in time as Unix seconds and nanoseconds. */
  datatype Time = Time(sec: int, nsec: int)

  /** `time.Unix(int64(ts)/1e9 + epoch, int64(ts)%1e9)` for a sensor
      timestamp in nanoseconds since 2000-01-01, with Go's truncating
      division; the result is not normalised. */
  function DeviceTime(ts: uint64): (t: Time)
    ensures (t.sec - Epoch) * 1_000_000_000 + t.nsec == Int64(ts)
    ensures -1_000_000_000 < t.nsec < 1_000_000_000
    ensures Int64(ts) >= 0 ==> t.nsec >= 0
    ensures Int64(ts) < 0 ==> t.nsec <= 0
  {
    var t := Int64(ts);
    Time(Quot(t, 1_000_000_000) + Epoch, Rem(t, 1_000_000_000))
  }

  /** The timestamp splits exactly into seconds after the 2000 epoch and
      nanoseconds. Below 2^63 nanoseconds the nanoseconds lie in
      [0, 1e9) and the seconds are the whole seconds elapsed; from 2^63 on
      the conversion to int64 makes the time negative and the nanoseconds
      lie in (-1e9, 0]. */
  lemma DeviceTimeExact(ts: uint64)
    ensures (DeviceTime(ts).sec - Epoch) * 1_000_000_000 + DeviceTime(ts).nsec == Int64(ts)
    ensures ts < 0x8000_0000_0000_0000 ==>
      0 <= DeviceTime(ts).nsec < 1_000_000_000 && DeviceTime(ts).sec == Epoch + ts / 1_000_000_000
    ensures ts >= 0x8000_0000_0000_0000 ==>
      -1_000_000_000 < DeviceTime(ts).nsec <= 0 && DeviceTime(ts).sec <= Epoch
  {
  }

  // ---------------------------------------------------------------------
  // Handlers

  /** An opaque name for a notification callback. */
  type HandlerId = nat

  /** What a `Handler`'s `Handle` returns: the command, the measurement
      type, the settings to send and the callback, if any. */
  datatype Handling = Handling(command: byte, measure: byte, settings: seq<Setting>, callback: Option<HandlerId>)
}
