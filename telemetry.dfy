/** The observable effects of one pass of the dispatch loop: telemetry
    packets handed to the RoveComm node and flushes of the serial port,
    recorded in the order they happen. */
module Telemetry {

  /** The manifest entries of the Nav board that the loop writes to. */
  datatype TelemetryId = GPSLatLon | CompassData | IMUData | SatelliteCountData | AccuracyData

  /** The packet's data type code: "f" (float) or "h" (int16). */
  datatype DataType = Float | Int16

  datatype Packet = Packet(id: TelemetryId, dataType: DataType, values: seq<real>)

  /** Which of the loop's three flush sites fired. */
  datatype FlushCause = UnknownProtocol | AllKindsSeen | KindOverflow

  datatype Event = Send(packet: Packet) | Flush(cause: FlushCause)

  /** Number of flushes recorded in an event trace. */
  function FlushCount(es: seq<Event>): (n: nat)
    ensures n <= |es|
    ensures n == 0 <==> forall i :: 0 <= i < |es| ==> es[i].Send?
  {
    if es == [] then 0
    else (if es[0].Flush? then 1 else 0) + FlushCount(es[1..])
  }

  lemma {:induction false} FlushCountAppend(a: seq<Event>, b: seq<Event>)
    ensures FlushCount(a + b) == FlushCount(a) + FlushCount(b)
    decreases |a|
  {
    if a != [] {
      assert (a + b)[1..] == a[1..] + b;
      FlushCountAppend(a[1..], b);
    } else {
      assert a + b == b;
    }
  }

  /** The trace sends no packet at all. */
  predicate NoSends(es: seq<Event>)
  {
    forall i :: 0 <= i < |es| ==> es[i].Flush?
  }

  /** The trace sends an AccuracyData packet somewhere. */
  predicate SendsAccuracy(es: seq<Event>)
  {
    exists i :: 0 <= i < |es| && es[i].Send? && es[i].packet.id == AccuracyData
  }
}
