/** The dispatch step of the Nav board's main loop as a pure state machine:
    one pass takes an optional queued item, may emit telemetry, updates the
    per-kind success counters and the remembered accuracy and position
    fields, then applies the two counter thresholds that flush the serial
    port and reset the counters. */
module Dispatch {
  import opened Ubx
  import opened Telemetry

  /** Number of tracked message kinds (NAV-PVT, NAV-RELPOSNED, NAV-SAT). */
  const Kinds: nat := 3
  /** All counters above this: every kind arrived twice, flush and resync. */
  const LowWater: nat := 1
  /** Any counter above this: one kind is running away, flush. */
  const HighWater: nat := 10

  /** The loop-carried values `hAcc, vAcc, accurHeading, lat, lon`, each `None` until first set. */
  datatype Fields = Fields(
    hAcc: Option<nat>, vAcc: Option<nat>, accurHeading: Option<real>,
    lat: Option<real>, lon: Option<real>)

  /** `counters` is `msg_success_array`. */
  datatype State = State(counters: seq<nat>, fields: Fields)

  datatype Outcome = Outcome(state: State, events: seq<Event>)

  function Zeros(): seq<nat> { [0, 0, 0] }

  function Init(): (s: State)
    ensures WellFormed(s) && Healthy(s.counters)
  {
    assert Zeros()[0] <= LowWater;
    State(Zeros(), Fields(None, None, None, None, None))
  }

  predicate WellFormed(s: State) { |s.counters| == Kinds }

  /** Python's `all(i > bound for i in c)`. */
  predicate AllAbove(c: seq<nat>, bound: nat)
  {
    forall i :: 0 <= i < |c| ==> c[i] > bound
  }

  /** Python's `any(i > bound for i in c)`. */
  predicate AnyAbove(c: seq<nat>, bound: nat)
  {
    exists i :: 0 <= i < |c| && c[i] > bound
  }

  /** What holds of the counters at the end of every pass. */
  predicate Healthy(c: seq<nat>)
  {
    |c| == Kinds && (forall i :: 0 <= i < |c| ==> c[i] <= HighWater) && !AllAbove(c, LowWater)
  }

  /** Counter slot of a tracked message kind. */
  function KindIndex(m: Message): (k: Option<nat>)
    ensures k.Some? <==> !m.Other?
    ensures k.Some? ==> k.value < Kinds
  {
    match m
    case NavPvt(_, _, _, _, _, _, _) => Some(0)
    case NavRelPosNed(_, _) => Some(1)
    case NavSat(_, _) => Some(2)
    case Other(_) => None
  }

  /** The remembered fields after a message: NAV-PVT overwrites position and
      both accuracies, NAV-RELPOSNED the heading accuracy. */
  function Store(f: Fields, m: Message): Fields
  {
    match m
    case NavPvt(lat, lon, _, hAcc, vAcc, _, _) =>
      f.(lat := Some(lat), lon := Some(lon), hAcc := Some(hAcc), vAcc := Some(vAcc))
    case NavRelPosNed(_, accHeading) => f.(accurHeading := Some(accHeading))
    case NavSat(_, _) => f
    case Other(_) => f
  }

  /** The packets a message sends on its own, in the order written. */
  function OwnEvents(m: Message): seq<Event>
  {
    match m
    case NavPvt(lat, lon, _, _, _, _, _) => [Send(Packet(GPSLatLon, Float, [lat, lon]))]
    case NavRelPosNed(h, _) =>
      [Send(Packet(CompassData, Float, [-h])), Send(Packet(IMUData, Float, [0.0, -h, 0.0]))]
    case NavSat(_, numSvs) => [Send(Packet(SatelliteCountData, Int16, [numSvs as real]))]
    case Other(_) => []
  }

  predicate AccuracyKnown(f: Fields)
  {
    f.hAcc.Some? && f.vAcc.Some? && f.accurHeading.Some?
  }

  /** Millimetre accuracies converted to metres, with the heading accuracy. */
  function AccuracyPacket(f: Fields): (p: Packet)
    requires AccuracyKnown(f)
    ensures p.id == AccuracyData && p.dataType == Float && |p.values| == 3
    ensures 0.0 <= p.values[0] && 0.0 <= p.values[1]
    ensures p.values[0] * 1000.0 == f.hAcc.value as real && p.values[1] * 1000.0 == f.vAcc.value as real
    ensures p.values[2] == f.accurHeading.value
  {
    Packet(AccuracyData, Float, [f.hAcc.value as real / 1000.0, f.vAcc.value as real / 1000.0, f.accurHeading.value])
  }

  /** Handling of one dequeued item, before the threshold rules. */
  function DispatchItem(s: State, p: Parsed): (r: Outcome)
    requires WellFormed(s)
    ensures WellFormed(r.state)
    ensures p.Text? ==> r.state == s && NoSends(r.events)
    ensures p.Decoded? ==> forall i :: 0 <= i < |r.events| ==> r.events[i].Send?
  {
    match p
    case Text(text) =>
      if Contains(text, UnknownProtocolMarker) then Outcome(s, [Flush(UnknownProtocol)])
      else Outcome(s, [])
    case Decoded(m) =>
      var k := KindIndex(m);
      var counters := if k.Some? then s.counters[k.value := s.counters[k.value] + 1] else s.counters;
      var fields := Store(s.fields, m);
      var accuracy := if AccuracyKnown(fields) then [Send(AccuracyPacket(fields))] else [];
      Outcome(State(counters, fields), OwnEvents(m) + accuracy)
  }

  /** The two threshold rules, in source order: low water first, then high water. */
  function Thresholds(c: seq<nat>): (r: (seq<nat>, seq<Event>))
    ensures |c| == Kinds ==> Healthy(r.0) && |r.1| <= 1 && FlushCount(r.1) == |r.1|
  {
    assert Zeros()[0] == 0;
    var (c1, e1) := if AllAbove(c, LowWater) then (Zeros(), [Flush(AllKindsSeen)]) else (c, []);
    var (c2, e2) := if AnyAbove(c1, HighWater) then (Zeros(), [Flush(KindOverflow)]) else (c1, []);
    (c2, e1 + e2)
  }

  /** One pass of the loop; `input` is `None` when the serial port has nothing waiting. */
  function Step(s: State, input: Option<Parsed>): (r: Outcome)
    requires WellFormed(s)
    ensures WellFormed(r.state) && Healthy(r.state.counters)
  {
    var d := if input.Some? then DispatchItem(s, input.value) else Outcome(s, []);
    var (c, e) := Thresholds(d.state.counters);
    Outcome(State(c, d.state.fields), d.events + e)
  }

  /** A finite prefix of the endless loop: the passes over `inputs`, in order. */
  function Run(s: State, inputs: seq<Option<Parsed>>): (r: Outcome)
    requires WellFormed(s)
    ensures WellFormed(r.state)
    ensures inputs != [] ==> Healthy(r.state.counters)
    decreases |inputs|
  {
    if inputs == [] then Outcome(s, [])
    else
      var before := Run(s, inputs[..|inputs| - 1]);
      var last := Step(before.state, inputs[|inputs| - 1]);
      Outcome(last.state, before.events + last.events)
  }
}
