// The PMD listener: the feature bytes read once at connection, and the
// table of notification handlers indexed by measurement type.

module PmdListener {
  import opened Wire
  import opened Pmd

  /** What `dispatch` does with a notification. */
  datatype Delivery = Dropped | Delivered(handler: HandlerId, buf: seq<byte>)

  /** Where a notification goes under a handler table: an empty one is
      dropped, one whose type byte is past the table is an index panic,
      and otherwise it goes whole to the handler of its type, if there is
      one. */
  function Route(table: seq<Option<HandlerId>>, buf: seq<byte>): (r: Result<Delivery, Error>)
  {
    if |buf| == 0 then Success(Dropped)
    else if buf[SampleTypeOffset] as int >= |table| then Failure(IndexOutOfRange)
    else match table[buf[SampleTypeOffset]]
      case None => Success(Dropped)
      case Some(h) => Success(Delivered(h, buf))
  }

  /** Setting the slot of measurement type `m` redirects exactly the
      notifications of type `m`: they now go to the new callback, or are
      dropped when it is nil, and every other notification goes where it
      went before. */
  lemma RouteAfterSet(table: seq<Option<HandlerId>>, m: nat, cb: Option<HandlerId>, buf: seq<byte>)
    requires m < |table|
    ensures |buf| > 0 && buf[0] as int == m ==>
      Route(table[m := cb], buf) == Success(if cb.Some? then Delivered(cb.value, buf) else Dropped)
    ensures |buf| == 0 || buf[0] as int != m ==> Route(table[m := cb], buf) == Route(table, buf)
  {
  }

  /** A delivered notification is never empty, goes whole to a handler
      that is in the table's slot for its type byte, and a failure is only
      ever the index panic of a type byte past the table. */
  lemma RouteDelivers(table: seq<Option<HandlerId>>, buf: seq<byte>)
    ensures Route(table, buf).Success? && Route(table, buf).value.Delivered? ==>
      |buf| > 0 && buf[0] as int < |table|
      && table[buf[0]] == Some(Route(table, buf).value.handler) && Route(table, buf).value.buf == buf
    ensures Route(table, buf).Failure? <==> |buf| > 0 && buf[0] as int >= |table|
  {
  }

  class Listener {
    /** The first two bytes the control point returned at connection. */
    const features: Features
    /** The callback registered for each measurement type. */
    const handlers: array<Option<HandlerId>>

    ghost predicate Valid()
      reads this
    {
      handlers.Length == MeasurementTypes
    }

    /** A listener with the given features and no handler registered. */
    constructor (features: Features)
      ensures Valid() && fresh(handlers)
      ensures this.features == features
      ensures forall i :: 0 <= i < handlers.Length ==> handlers[i] == None
    {
      this.features := features;
      this.handlers := new Option<HandlerId>[MeasurementTypes](_ => None);
    }

    /** `Features`: the feature bytes read at connection. */
    function Features(): (f: Pmd.Features)
      reads this
      ensures f == features
    {
      features
    }

    /** `dispatch`: hands a notification to the handler of its type. */
    method Dispatch(buf: seq<byte>) returns (r: Result<Delivery, Error>)
      requires Valid()
      ensures r == Route(handlers[..], buf)
    {
      if |buf| == 0 {
        return Success(Dropped);
      }
      if buf[SampleTypeOffset] as int >= handlers.Length {
        return Failure(IndexOutOfRange);
      }
      var handle := handlers[buf[SampleTypeOffset]];
      if handle.Some? {
        return Success(Delivered(handle.value, buf));
      }
      return Success(Dropped);
    }

    /** `SetHandler`: a measurement type past the table is refused with
      nothing changed and nothing sent; otherwise the slot takes the
      handler's callback, and keeps it whatever `sendCommand` then
      returns, and the handler's command is sent for online recording. */
    method SetHandler(h: Handling, reply: Reply) returns (sent: Option<seq<byte>>, resp: seq<byte>, err: Option<Error>)
      requires Valid()
      modifies handlers
      ensures Valid()
      ensures h.measure as int >= MeasurementTypes ==>
        handlers[..] == old(handlers[..]) && sent == None && resp == []
        && err == Some(InvalidMeasurementType(h.measure))
      ensures h.measure as int < MeasurementTypes ==>
        handlers[..] == old(handlers[..])[h.measure := h.callback]
        && (sent, resp, err) == SendOutcome(SetCommand(h.command, Online, h.measure), h.settings, reply)
    {
      if h.measure as int >= handlers.Length {
        return None, [], Some(InvalidMeasurementType(h.measure));
      }
      handlers[h.measure] := h.callback;
      sent, resp, err := SendCommand(SetCommand(h.command, Online, h.measure), h.settings, reply);
    }

    /** `Settings`: asks the sensor for the settings of measurement type
        `m` with online recording. */
    method Settings(m: byte, reply: Reply) returns (sent: seq<byte>, settings: seq<Setting>, err: Option<Error>)
      ensures sent == Preface(SetCommand(MeasureSettings, Online, m))
      ensures Parsed(settings, err) == QueryOutcome(MeasureSettings, reply)
    {
      sent, settings, err := QuerySettings(SetCommand(MeasureSettings, Online, m), reply);
    }
  }

  /** `NewListener`, given the bytes the control point read returned:
      fewer than two is an error; otherwise the first two are the
      features and no handler is registered. */
  method NewListener(read: seq<byte>) returns (l: Listener?, err: Option<Error>)
    ensures |read| < 2 ==> l == null && err == Some(FeaturesTooShort(read))
    ensures |read| >= 2 ==>
      err == None && l != null && fresh(l) && fresh(l.handlers) && l.Valid()
      && l.Features() == Features(read[0], read[1])
      && forall i :: 0 <= i < l.handlers.Length ==> l.handlers[i] == None
  {
    if |read| < 2 {
      return null, Some(FeaturesTooShort(read));
    }
    l := new Listener(Features(read[0], read[1]));
    err := None;
  }
}
