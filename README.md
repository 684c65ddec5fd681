# Nav board dispatch loop — a Dafny model

The Nav board program reads UBX navigation messages from a u-blox GNSS
receiver over a serial port. A reader thread decodes frames and queues the
results. The main loop takes them off the queue and forwards telemetry to
the rover's RoveComm network. This project models that main loop
(`main()` in `nav_board.py`, the `while True` body) and proves its
properties.

The loop is modelled on two levels:

- **Module `Dispatch`** (`dispatch.dfy`) is the loop written as a pure state
  machine.
  - The state is the three-slot success counter array plus the five
    loop-carried values `hAcc`, `vAcc`, `accurHeading`, `lat` and `lon`.
    Each of those values is `None` until it is first set.
  - `Step` is one pass of the loop. It takes an optional queued item:
    `None` means the serial port had nothing waiting.
  - `Run` is a finite prefix of the endless loop.
  - The outputs form an ordered trace of events. An event is either a packet
    (telemetry name, data type, values) or a flush of the serial port. The
    flush records which of the three flush sites fired it.
- **Module `NavBoard`** (`nav_board.dfy`) has the same loop in the source's
  own imperative form.
  - Class `Dispatcher` holds `msgSuccess: array<nat>` and the optional
    fields, and updates them in place.
  - `AllExceed` and `AnyExceeds` scan the array like Python's `all`/`any`.
  - Every method is proved to do exactly what `Dispatch` specifies. In
    particular, `Dispatcher.Step` and `Dispatcher.Run` are proved equal to
    `Dispatch.Step` and `Dispatch.Run`.
- **Module `DispatchProperties`** (`dispatch_props.dfy`) proves what the loop
  promises about the `Dispatch` functions.
- **Module `Ubx`** (`ubx.dfy`) defines the decoded items the reader puts on
  the queue: a text result, or a NAV-PVT, NAV-RELPOSNED, NAV-SAT or
  other-identity message. It also defines the substring test used to spot
  "UNKNOWN PROTOCOL" text.
- **Module `Telemetry`** (`telemetry.dfy`) defines packets and flush events.

Behaviour of the code worth noting:

- The orientation packet is written as `(0, -relPosHeading, 0)`. The negated
  heading sits in the middle slot.
- An "UNKNOWN PROTOCOL" text flushes the port but does not reset the
  counters. Only the two threshold rules reset them.
- The threshold rules run on every pass, including passes where nothing was
  waiting on the serial port.

## Model

| member | source | states |
|---|---|---|
| `Ubx.ContainsIffOccurs` | nav_board.py:153 | The substring test used for `"UNKNOWN PROTOCOL" in parsed_data` holds exactly when the marker occurs at some index of the text. |
| `Dispatch.Init` | nav_board.py:139-144 | At loop entry the counters are `[0, 0, 0]` and all five remembered values are `None`. This start state is well formed and healthy. |
| `Dispatch.AccuracyPacket` | nav_board.py:203 | The accuracy packet carries `hAcc/1000` and `vAcc/1000`, which are non-negative metres (each times 1000 gives back the millimetres), then the heading accuracy, all as float data. |
| `Dispatch.DispatchItem` | nav_board.py:153-204 | Handling one dequeued item keeps three counters. A text item changes neither the counters nor the fields and sends no packet. A decoded message never flushes. Its parts are `KindIndex` (which counter slot to increment), `Store` (which fields to remember) and `OwnEvents` (which packets to send). |
| `Dispatch.Thresholds` | nav_board.py:206-221 | Applied to three counters, the two threshold rules always leave them healthy and record at most one event. Any event recorded is a flush. |
| `Dispatch.Step` | nav_board.py:146-221 | After every pass, whatever the counters were before, there are three counters, each is at most 10, and they are not all above 1. |
| `Dispatch.Run` | nav_board.py:146-221 | After any non-empty run of passes, the counters are healthy. |
| `NavBoard.AllExceed` | nav_board.py:207 | The scan returns true exactly when every counter exceeds the bound. |
| `NavBoard.AnyExceeds` | nav_board.py:215 | The scan returns true exactly when some counter exceeds the bound. |
| `NavBoard.Dispatcher.constructor` | nav_board.py:139-144 | The fresh dispatcher's state is the loop's start state. |
| `NavBoard.Dispatcher.ResetCounters` | nav_board.py:213 | All three counters become 0. |
| `NavBoard.Dispatcher.HandleMessage` | nav_board.py:160-204 | Updating the fields and the array in place gives exactly the new state and packets that `Dispatch.DispatchItem` specifies for a decoded message. |
| `NavBoard.Dispatcher.ApplyThresholds` | nav_board.py:206-221 | The new array contents and the flushes are exactly those of the two threshold rules applied in source order to the old counters. |
| `NavBoard.Dispatcher.Step` | nav_board.py:146-221 | One in-place pass gives exactly the state and event trace of `Dispatch.Step`. |
| `NavBoard.Dispatcher.Run` | nav_board.py:146-221 | The loop over a finite input script gives exactly `Dispatch.Run`. After at least one pass, the counters are healthy. |
| `DispatchProperties.DispatchCountsKind` | nav_board.py:174-198 | NAV-PVT, NAV-RELPOSNED and NAV-SAT add exactly one to counter 0, 1 and 2 respectively and leave the other two counters unchanged. |
| `DispatchProperties.DispatchOtherIdentity` | nav_board.py:160-204 | A message whose identity is none of NAV-PVT, NAV-RELPOSNED and NAV-SAT changes neither the counters nor the remembered fields. It emits nothing unless all accuracies are known. |
| `DispatchProperties.StepCountsKind` | nav_board.py:174-221 | After the thresholds, a tracked message either keeps its increment with no flush, or causes exactly one flush that zeroes every counter. |
| `DispatchProperties.LowWaterRule` | nav_board.py:207-213 | If every counter exceeds 1, the thresholds record exactly one flush and all three counters become 0. |
| `DispatchProperties.HighWaterRule` | nav_board.py:215-221 | If any counter exceeds 10, exactly one flush is recorded and all three counters become 0, whatever the others hold. |
| `DispatchProperties.ThresholdsRestoreHealth` | nav_board.py:206-221 | The thresholds flush exactly when a rule applies, and at most once. Afterwards the counters are zero if a flush happened and unchanged otherwise. They always end healthy. |
| `DispatchProperties.NoFlushFromMessage` | nav_board.py:160-204 | Dispatching a decoded message never flushes by itself. |
| `DispatchProperties.LowWaterPass` | nav_board.py:198-213 | The pass whose message takes every counter above 1 ends with a single flush, which is the low-water flush. All counters are then zero. |
| `DispatchProperties.QuietPass` | nav_board.py:174-221 | A tracked message that takes no counter past either threshold is counted in its own slot, and the pass does not flush. |
| `DispatchProperties.ResyncOpening` | nav_board.py:139-221 | From the loop's start, NAV-PVT, NAV-PVT and NAV-RELPOSNED flush nothing and leave the counters at `[2, 1, 0]`. |
| `DispatchProperties.ResyncClosing` | nav_board.py:174-213 | From counters `[2, 1, 0]`, NAV-RELPOSNED, NAV-SAT and NAV-SAT flush nothing on the first two passes. The third pass flushes once, with the low-water flush last, and zeroes the counters. |
| `DispatchProperties.ResyncScenario` | nav_board.py:139-213 | From the loop's start, two NAV-PVT, two NAV-RELPOSNED and two NAV-SAT messages in that order cause no flush on the first five passes. The sixth pass flushes exactly once, with the low-water flush as its last event, and all counters end at zero. |
| `DispatchProperties.StepFlushBound` | nav_board.py:153-221 | A pass flushes at most once, or twice when the item was an "UNKNOWN PROTOCOL" text. |
| `DispatchProperties.UnknownProtocolStep` | nav_board.py:153-159 | An "UNKNOWN PROTOCOL" text records one flush and no packet. It keeps the counters and fields. From healthy counters, the whole pass is just that flush. |
| `DispatchProperties.OtherTextIgnored` | nav_board.py:153-160 | Any other text gives the same pass as one with nothing waiting. |
| `DispatchProperties.IdleStep` | nav_board.py:146-221 | With nothing waiting, no packet is sent, the fields are kept, and only the thresholds change the counters. From healthy counters, nothing happens. |
| `DispatchProperties.PvtOutputs` | nav_board.py:162-204 | NAV-PVT stores lat, lon, hAcc and vAcc, and first emits GPSLatLon `(lat, lon)`. After those, the only event is the accuracy packet, and it is sent exactly when all three accuracies are known. |
| `DispatchProperties.RelPosOutputs` | nav_board.py:176-204 | NAV-RELPOSNED stores the heading accuracy. It emits CompassData `(-heading)` and then IMUData `(0, -heading, 0)`. After those, the only event is the accuracy packet, and it is sent exactly when all three accuracies are known. |
| `DispatchProperties.SatOutputs` | nav_board.py:189-204 | NAV-SAT stores nothing and emits SatelliteCountData `(numSvs)` as int16. After those, the only event is the accuracy packet, and it is sent exactly when all three accuracies are known. |
| `DispatchProperties.AccuracyGating` | nav_board.py:200-204 | A decoded message sends AccuracyData if and only if hAcc, vAcc and accurHeading are all known after it. The packet is the last event, after the message's own packets, with the metre conversion. |
| `DispatchProperties.TextSendsNoAccuracy` | nav_board.py:153-160 | A text item never sends the accuracy packet. |
| `DispatchProperties.AccuracyStaysKnown` | nav_board.py:162-187 | Once all three accuracies are set, no later pass unsets them. |
| `DispatchProperties.AccuracyAfterEveryMessage` | nav_board.py:200-204 | Once they are known, every later decoded message sends AccuracyData right after its own packets. This includes messages of other identities. |
| `DispatchProperties.RunConcat` | nav_board.py:146-150 | Items are handled strictly in order. Running two stretches of input one after the other gives the same result as running them joined. |
| `DispatchProperties.RunAccuracyStaysKnown` | nav_board.py:144-204 | Known accuracies stay known over any run. |
| `DispatchProperties.RunAccuracyGated` | nav_board.py:144-204 | No AccuracyData packet is sent anywhere in a run while some accuracy is still unknown at its end. |

## Left out

- The reader thread `read_data`, the lock, the queue, the stop event and the thread join/shutdown (nav_board.py:53-80, 120-136, 223-230). Their point is concurrency and serial I/O. The model takes the sequence of queued items as its input.
- A blocking `read_queue.get()` when the port has bytes but the queue is empty is not modelled. Each pass with bytes waiting is given the item it dequeues.
- `None` items are not modelled. The reader only enqueues truthy parse results (nav_board.py:77-78), so the dispatch loop never sees `None`.
- UBX frame decoding and checksum validation are left out. They are done by the external `pyubx2.UBXReader`, whose code is not part of this model. Messages arrive already decoded, identified by their kind.
- `flush_serial` (nav_board.py:38-51) is made of pyserial buffer calls. A flush is modelled as a recorded event.
- The RoveComm manifest lookup, `rovecomm_node.write` and the network transport are left out. A packet is modelled as its telemetry name, data type code and values. Data IDs and float32 packing are not modelled.
- All logging, the YAML config and the command-line parsing are left out. They set up I/O or only write log lines.
- `Dispatch.DispatchItem`: the NAV-PVT branch calls `utm.from_latlon(lat, lon)` (nav_board.py:166) before sending anything. That call raises for a latitude outside [-80, 84] or a longitude outside [-180, 180]. Only `KeyboardInterrupt` is caught (nav_board.py:223), so the exception ends the loop. The model does not model `utm` and carries on for every coordinate: it counts the message and sends its packets.
- `Ubx.FixType`: `fixType` is limited to 0..5, the six values the UBX protocol defines for NAV-PVT. The log line at nav_board.py:172 evaluates `NAV_FIX_TYPE(fix_type + 1)`, which raises for any larger value. That would happen after the GPSLatLon packet is sent and before the counter is incremented, and it would end the loop. The model does not include that path.
- Floating point is not modelled. Latitude, longitude and headings are unbounded reals, and `hAcc/1000` and `vAcc/1000` are real division of integer millimetres.
- `Dispatcher.ResetCounters`: the source rebinds `msg_success_array` to a new list. The model zeroes the same array in place. Nothing else refers to that list, so the two cannot be told apart.
- `Dispatch.Run` models a finite prefix of `while True`. Termination by keyboard interrupt is not modelled.
