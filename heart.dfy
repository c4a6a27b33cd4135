// The Heart Rate Measurement characteristic of the Bluetooth Heart Rate
// Service 1.0: the flags byte of section 3.1.1.1, the heart rate, the
// energy expended and the RR intervals.

module Heart {
  import opened Wire

  /** The errors `Rate.UnmarshalBinary` reports; `IndexOutOfRange` stands
      for a Go index panic on a short notification. */
  datatype Error = NoContact | IndexOutOfRange

  /** A heart rate measurement; RR intervals in nanoseconds, energy in kJ
      (-1 when absent). */
  datatype Rate = Rate(hr: uint16, rr: seq<int>, energy: int, energyExpended: bool,
                       contact: bool, contactSupported: bool)

  /** Flag bits of section 3.1.1.1. */
  const HrFormat := 0
  const ContactDetected := 1
  const ContactSupportedBit := 2
  const EnergyPresent := 3
  const RrPresent := 4

  /** The flag of weight 2^k, which the source tests with a mask. */
  predicate Bit(flags: byte, k: nat)
    requires k <= RrPresent
  {
    match k
    case 0 => flags % 2 == 1
    case 1 => (flags / 2) % 2 == 1
    case 2 => (flags / 4) % 2 == 1
    case 3 => (flags / 8) % 2 == 1
    case _ => (flags / 16) % 2 == 1
  }

  /** Contact is reported only when it is both supported and detected. */
  predicate Contact(flags: byte)
  {
    Bit(flags, ContactDetected) && Bit(flags, ContactSupportedBit)
  }

  /** The receiver written when contact is supported but not detected. */
  const NoContactRate := Rate(0, [], 0, false, false, true)

  /** An RR interval in 1/1024 s as Go's integer nanoseconds. */
  function Nanos(v: uint16): (ns: int)
    ensures 1024 * ns <= 1_000_000_000 * v < 1024 * (ns + 1)
  {
    v * 1_000_000_000 / 1024
  }

  /** The RR intervals of a run of two-byte little-endian values. */
  function Intervals(p: seq<byte>): (rr: seq<int>)
    requires |p| % 2 == 0
    ensures |rr| == |p| / 2
  {
    seq(|p| / 2, i requires 0 <= i < |p| / 2 => Nanos(LeUint16(p[2 * i..2 * i + 2])))
  }

  /** The receiver after `Rate.UnmarshalBinary` and the error it returned.
      Contact supported but not detected overwrites the receiver with a
      rate whose only set field is `contactSupported`; a notification too
      short for its heart rate or energy, or holding an odd number of RR
      bytes, is an index panic that leaves the receiver as it was. */
  function Unmarshaled(recv: Rate, data: seq<byte>): (Rate, Option<Error>)
  {
    if |data| == 0 then (recv, Some(IndexOutOfRange))
    else
      var f := data[0];
      if Bit(f, ContactSupportedBit) && !Contact(f) then (NoContactRate, Some(NoContact))
      else
        var wide := Bit(f, HrFormat);
        var offset := if wide then 3 else 2;
        if |data| < offset then (recv, Some(IndexOutOfRange))
        else
          var hr := if wide then LeUint16(data[1..]) else data[1];
          var offset' := if Bit(f, EnergyPresent) then offset + 2 else offset;
          if |data| < offset' then (recv, Some(IndexOutOfRange))
          else
            var energy := if Bit(f, EnergyPresent) then LeUint16(data[offset..]) else -1;
            if Bit(f, RrPresent) && (|data| - offset') % 2 != 0 then (recv, Some(IndexOutOfRange))
            else
              var rr := if Bit(f, RrPresent) then Intervals(data[offset'..]) else [];
              (Rate(hr, rr, energy, Bit(f, EnergyPresent), Contact(f), Bit(f, ContactSupportedBit)), None)
  }

  /** The RR loop: one interval per two bytes, in order. */
  method ReadIntervals(p: seq<byte>) returns (rr: seq<int>)
    requires |p| % 2 == 0
    ensures rr == Intervals(p)
  {
    ghost var n := |p| / 2;
    rr := [];
    var i := 0;
    while i < |p|
      invariant i == 2 * |rr| && |p| == 2 * n && i <= |p|
      invariant forall j :: 0 <= j < |rr| ==> rr[j] == Nanos(LeUint16(p[2 * j..2 * j + 2]))
    {
      LeUint16Prefix(p[i..], p[i..i + 2]);
      rr := rr + [Nanos(LeUint16(p[i..]))];
      i := i + 2;
    }
  }

  /** `Rate.UnmarshalBinary`: decodes the flags, then walks a cursor
      through the heart rate, the energy and the RR intervals. */
  method UnmarshalRate(recv: Rate, data: seq<byte>) returns (out: Rate, err: Option<Error>)
    ensures (out, err) == Unmarshaled(recv, data)
  {
    if |data| == 0 {
      return recv, Some(IndexOutOfRange);
    }
    var wide := Bit(data[0], HrFormat);
    var contact := Contact(data[0]);
    var contactSupported := Bit(data[0], ContactSupportedBit);
    var energyExpended := Bit(data[0], EnergyPresent);
    var rrPresent := Bit(data[0], RrPresent);
    var offset := 1;
    if contactSupported && !contact {
      return NoContactRate, Some(NoContact);
    }
    var hr: uint16;
    if wide {
      if |data| < offset + 2 {
        return recv, Some(IndexOutOfRange);
      }
      hr := LeUint16(data[offset..]);
    } else {
      if |data| <= offset {
        return recv, Some(IndexOutOfRange);
      }
      hr := data[offset];
    }
    offset := offset + 1 + (if wide then 1 else 0);
    var energy: int := -1;
    if energyExpended {
      if |data| < offset + 2 {
        return recv, Some(IndexOutOfRange);
      }
      energy := LeUint16(data[offset..]);
      offset := offset + 2;
    }
    var rr: seq<int> := [];
    if rrPresent {
      if (|data| - offset) % 2 != 0 {
        return recv, Some(IndexOutOfRange);
      }
      rr := ReadIntervals(data[offset..]);
    }
    return Rate(hr, rr, energy, energyExpended, contact, contactSupported), None;
  }

  // ---------------------------------------------------------------------
  // The notifications a sensor sends

  /** The RR payload for intervals in 1/1024 s. */
  function RrBytes(rr: seq<uint16>): (p: seq<byte>)
    ensures |p| == 2 * |rr|
  {
    if rr == [] then [] else PutUint16(rr[0]) + RrBytes(rr[1..])
  }

  /** A notification with the given flags: the heart rate in one or two
      bytes as bit 0 says, then the energy and the RR intervals when their
      bits are set. */
  function Notification(flags: byte, hr: uint16, energy: uint16, rr: seq<uint16>): seq<byte>
    requires !Bit(flags, HrFormat) ==> hr < 0x100
  {
    [flags] + (if Bit(flags, HrFormat) then PutUint16(hr) else [hr])
      + (if Bit(flags, EnergyPresent) then PutUint16(energy) else [])
      + (if Bit(flags, RrPresent) then RrBytes(rr) else [])
  }

  /** The `i`th two bytes of an RR payload are the `i`th interval's. */
  lemma {:induction false} RrBytesAt(rr: seq<uint16>, i: nat)
    requires i < |rr|
    ensures RrBytes(rr)[2 * i..2 * i + 2] == PutUint16(rr[i])
  {
    if i > 0 {
      RrBytesAt(rr[1..], i - 1);
      assert RrBytes(rr)[2 * i..2 * i + 2] == RrBytes(rr[1..])[2 * (i - 1)..2 * (i - 1) + 2];
    }
  }

  /** Intervals in 1/1024 s, each converted to nanoseconds. */
  function AllNanos(rr: seq<uint16>): (ns: seq<int>)
    ensures |ns| == |rr| && forall i :: 0 <= i < |rr| ==> ns[i] == Nanos(rr[i])
  {
    if rr == [] then [] else [Nanos(rr[0])] + AllNanos(rr[1..])
  }

  /** Reading an RR payload gives each interval in nanoseconds, in order. */
  lemma IntervalsRoundTrip(rr: seq<uint16>)
    ensures Intervals(RrBytes(rr)) == AllNanos(rr)
  {
    forall i | 0 <= i < |rr|
      ensures Nanos(LeUint16(RrBytes(rr)[2 * i..2 * i + 2])) == AllNanos(rr)[i]
    {
      RrBytesAt(rr, i);
    }
    IntervalsOf(RrBytes(rr), AllNanos(rr));
  }

  /** An RR payload whose every two bytes hold the matching interval. */
  lemma IntervalsOf(p: seq<byte>, ns: seq<int>)
    requires |p| == 2 * |ns|
    requires forall i :: 0 <= i < |ns| ==> Nanos(LeUint16(p[2 * i..2 * i + 2])) == ns[i]
    ensures Intervals(p) == ns
  {
    assert |p| / 2 == |ns|;
  }

  /** Every notification with consistent contact flags decodes to its
      fields: the heart rate, the energy when its bit is set and -1
      otherwise, the RR intervals in nanoseconds when their bit is set, and
      the contact flags. */
  lemma RateRoundTrip(recv: Rate, flags: byte, hr: uint16, energy: uint16, rr: seq<uint16>)
    requires !Bit(flags, HrFormat) ==> hr < 0x100
    requires Bit(flags, ContactSupportedBit) ==> Bit(flags, ContactDetected)
    ensures Unmarshaled(recv, Notification(flags, hr, energy, rr)) ==
      (Rate(hr,
            if Bit(flags, RrPresent) then AllNanos(rr) else [],
            if Bit(flags, EnergyPresent) then energy else -1,
            Bit(flags, EnergyPresent), Bit(flags, ContactDetected) && Bit(flags, ContactSupportedBit),
            Bit(flags, ContactSupportedBit)),
       None)
  {
    var hb := if Bit(flags, HrFormat) then PutUint16(hr) else [hr];
    var eb := if Bit(flags, EnergyPresent) then PutUint16(energy) else [];
    var rb := if Bit(flags, RrPresent) then RrBytes(rr) else [];
    assert Notification(flags, hr, energy, rr) == [flags] + hb + eb + rb;
    FieldsAt(recv, flags, hb, eb, rb);
    IntervalsRoundTrip(rr);
  }

  /** A notification laid out as flags, heart rate bytes, energy bytes and
      RR bytes, each of the width its flag calls for, decodes field by
      field. */
  lemma FieldsAt(recv: Rate, f: byte, hb: seq<byte>, eb: seq<byte>, rb: seq<byte>)
    requires Bit(f, ContactSupportedBit) ==> Bit(f, ContactDetected)
    requires |hb| == (if Bit(f, HrFormat) then 2 else 1)
    requires |eb| == (if Bit(f, EnergyPresent) then 2 else 0)
    requires Bit(f, RrPresent) ==> |rb| % 2 == 0
    ensures Unmarshaled(recv, [f] + hb + eb + rb) ==
      (Rate(if Bit(f, HrFormat) then LeUint16(hb) else hb[0],
            if Bit(f, RrPresent) then Intervals(rb) else [],
            if Bit(f, EnergyPresent) then LeUint16(eb) else -1,
            Bit(f, EnergyPresent), Contact(f), Bit(f, ContactSupportedBit)),
       None)
  {
    var n := [f] + hb + eb + rb;
    var offset := |hb| + 1;
    assert n[0] == f;
    if Bit(f, HrFormat) {
      assert n[1..3] == hb;
      LeUint16At(n, 1, hb);
    } else {
      assert n[1] == hb[0];
    }
    if Bit(f, EnergyPresent) {
      assert n[offset..offset + 2] == eb;
      LeUint16At(n, offset, eb);
    }
    assert n[offset + |eb|..] == rb;
  }

  /** Contact supported but not detected fails whatever else the
      notification holds, and overwrites the receiver with a rate that
      only says contact is supported. */
  lemma NoContactOverwrites(recv: Rate, data: seq<byte>)
    requires |data| > 0 && Bit(data[0], ContactSupportedBit) && !Bit(data[0], ContactDetected)
    ensures Unmarshaled(recv, data) == (NoContactRate, Some(NoContact))
  {
  }
}
