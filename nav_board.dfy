/** The consumer side of the Nav board's main loop as the source runs it:
    loop-carried variables updated in place, a three-slot success-counter
    array incremented in place, and the flush-and-reset rules checked with
    `all`/`any` scans of that array. Each method is proved against the pure
    state machine of module Dispatch. */
module NavBoard {
  import opened Ubx
  import opened Telemetry
  import opened Dispatch

  /** Python's `all(i > bound for i in a)`, scanning the array. */
  method AllExceed(a: array<nat>, bound: nat) returns (b: bool)
    ensures b <==> AllAbove(a[..], bound)
  {
    b := true;
    var i := 0;
    while i < a.Length
      invariant 0 <= i <= a.Length
      invariant b <==> forall j :: 0 <= j < i ==> a[j] > bound
    {
      if !(a[i] > bound) {
        b := false;
      }
      i := i + 1;
    }
  }

  /** Python's `any(i > bound for i in a)`, scanning the array. */
  method AnyExceeds(a: array<nat>, bound: nat) returns (b: bool)
    ensures b <==> AnyAbove(a[..], bound)
  {
    b := false;
    var i := 0;
    while i < a.Length
      invariant 0 <= i <= a.Length
      invariant b <==> exists j :: 0 <= j < i && a[j] > bound
    {
      if a[i] > bound {
        b := true;
      }
      i := i + 1;
    }
  }

  class Dispatcher {
    /** `msg_success_array`: successes of NAV-PVT, NAV-RELPOSNED, NAV-SAT since the last reset. */
    var msgSuccess: array<nat>
    var hAcc: Option<nat>
    var vAcc: Option<nat>
    var accurHeading: Option<real>
    var lat: Option<real>
    var lon: Option<real>

    ghost predicate Valid()
      reads this
    {
      msgSuccess.Length == Kinds
    }

    /** The abstract state of the loop. */
    ghost function Model(): State
      reads this, msgSuccess
    {
      State(msgSuccess[..], Fields(hAcc, vAcc, accurHeading, lat, lon))
    }

    /** Loop entry: counters `[0, 0, 0]`, every remembered value `None`. */
    constructor ()
      ensures Valid() && fresh(msgSuccess)
      ensures Model() == Init()
    {
      msgSuccess := new nat[3] [0, 0, 0];
      hAcc, vAcc, accurHeading, lat, lon := None, None, None, None, None;
    }

    /** Sets every counter back to zero. */
    method ResetCounters()
      requires Valid()
      modifies msgSuccess
      ensures msgSuccess[..] == Zeros()
    {
      msgSuccess[0], msgSuccess[1], msgSuccess[2] := 0, 0, 0;
    }

    /** The handling of one decoded message object: remember its fields,
        write its packets, count it, then the accuracy packet once all three
        accuracies are known. */
    method HandleMessage(msg: Message) returns (events: seq<Event>)
      requires Valid()
      modifies this, msgSuccess
      ensures Valid() && msgSuccess == old(msgSuccess)
      ensures Outcome(Model(), events) == DispatchItem(old(Model()), Decoded(msg))
    {
      match msg {
        case NavPvt(mLat, mLon, _, mHAcc, mVAcc, _, _) =>
          lat, lon, hAcc, vAcc := Some(mLat), Some(mLon), Some(mHAcc), Some(mVAcc);
          events := [Send(Packet(GPSLatLon, Float, [mLat, mLon]))];
          msgSuccess[0] := msgSuccess[0] + 1;
        case NavRelPosNed(relPosHeading, accHeading) =>
          accurHeading := Some(accHeading);
          events := [Send(Packet(CompassData, Float, [-relPosHeading]))];
          events := events + [Send(Packet(IMUData, Float, [0.0, -relPosHeading, 0.0]))];
          msgSuccess[1] := msgSuccess[1] + 1;
        case NavSat(_, numSvs) =>
          events := [Send(Packet(SatelliteCountData, Int16, [numSvs as real]))];
          msgSuccess[2] := msgSuccess[2] + 1;
        case Other(_) =>
          events := [];
      }
      if hAcc.Some? && vAcc.Some? && accurHeading.Some? {
        events := events + [Send(AccuracyPacket(Fields(hAcc, vAcc, accurHeading, lat, lon)))];
      }
    }

    /** The two threshold rules at the end of every pass: flush and reset
        when every counter exceeds one, then when any counter exceeds ten. */
    method ApplyThresholds() returns (events: seq<Event>)
      requires Valid()
      modifies msgSuccess
      ensures (msgSuccess[..], events) == Thresholds(old(msgSuccess[..]))
    {
      ghost var c := msgSuccess[..];
      var allSeen := AllExceed(msgSuccess, LowWater);
      var lowFlush: seq<Event> := [];
      if allSeen {
        lowFlush := [Flush(AllKindsSeen)];
        ResetCounters();
      }
      ghost var c1 := msgSuccess[..];
      assert (c1, lowFlush) == if AllAbove(c, LowWater) then (Zeros(), [Flush(AllKindsSeen)]) else (c, []);
      var overflow := AnyExceeds(msgSuccess, HighWater);
      var highFlush: seq<Event> := [];
      if overflow {
        highFlush := [Flush(KindOverflow)];
        ResetCounters();
      }
      assert (msgSuccess[..], highFlush) == if AnyAbove(c1, HighWater) then (Zeros(), [Flush(KindOverflow)]) else (c1, []);
      events := lowFlush + highFlush;
    }

    /** One pass of `while True`: `input` is `None` when the serial port has
        nothing waiting, otherwise the item taken off the reader queue. The
        returned trace lists the packets written and the flushes done. */
    method Step(input: Option<Parsed>) returns (events: seq<Event>)
      requires Valid()
      modifies this, msgSuccess
      ensures Valid() && msgSuccess == old(msgSuccess)
      ensures Outcome(Model(), events) == Dispatch.Step(old(Model()), input)
    {
      events := [];
      if input.Some? {
        match input.value
        case Text(text) =>
          if Contains(text, UnknownProtocolMarker) {
            events := [Flush(UnknownProtocol)];
          }
        case Decoded(msg) =>
          events := HandleMessage(msg);
      }
      var flushes := ApplyThresholds();
      events := events + flushes;
    }

    /** The first `|inputs|` passes of the endless loop. */
    method Run(inputs: seq<Option<Parsed>>) returns (events: seq<Event>)
      requires Valid()
      modifies this, msgSuccess
      ensures Valid() && msgSuccess == old(msgSuccess)
      ensures Outcome(Model(), events) == Dispatch.Run(old(Model()), inputs)
      ensures |inputs| > 0 ==> Healthy(msgSuccess[..])
    {
      events := [];
      var i := 0;
      while i < |inputs|
        invariant 0 <= i <= |inputs|
        invariant Valid() && msgSuccess == old(msgSuccess)
        invariant Outcome(Model(), events) == Dispatch.Run(old(Model()), inputs[..i])
        invariant i > 0 ==> Healthy(msgSuccess[..])
      {
        var more := Step(inputs[i]);
        assert inputs[..i + 1][..i] == inputs[..i];
        events := events + more;
        i := i + 1;
      }
      assert inputs[..i] == inputs;
    }
  }
}
