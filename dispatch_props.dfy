/** What one pass of the dispatch loop, and a run of passes, promise:
    per-kind counting, the two flush thresholds, the counter invariant, the
    handling of unreadable frames, the exact packets per message identity and
    the gating of the composite accuracy packet. */
module DispatchProperties {
  import opened Ubx
  import opened Telemetry
  import opened Dispatch

  /** The counter slot the source increments for each tracked identity. */
  predicate TrackedAt(m: Message, k: nat)
  {
    KindIndex(m) == Some(k)
  }

  // ---------------------------------------------------------------- counting

  /** NAV-PVT, NAV-RELPOSNED and NAV-SAT add exactly one to their own counter
      and leave the other two alone. */
  lemma DispatchCountsKind(s: State, m: Message, k: nat)
    requires WellFormed(s) && TrackedAt(m, k)
    ensures var c := DispatchItem(s, Decoded(m)).state.counters;
      |c| == Kinds && c[k] == s.counters[k] + 1 &&
      forall j :: 0 <= j < Kinds && j != k ==> c[j] == s.counters[j]
  {
    assert !IsUnknownProtocol(Decoded(m));
    assert KindIndex(m) == Some(k);
  }

  /** A message of any other identity changes no counter and no remembered
      field. */
  lemma DispatchOtherIdentity(s: State, id: OtherIdentity)
    requires WellFormed(s)
    ensures var r := DispatchItem(s, Decoded(Other(id)));
      r.state == s && (r.events == [] <==> !AccuracyKnown(s.fields))
  {
  }

  /** After the thresholds, a tracked message either left its increment in
      place without a flush, or a single flush reset every counter. */
  lemma StepCountsKind(s: State, m: Message, k: nat)
    requires WellFormed(s) && TrackedAt(m, k)
    ensures var r := Step(s, Some(Decoded(m)));
      var bumped := s.counters[k := s.counters[k] + 1];
      (r.state.counters == bumped && FlushCount(r.events) == 0) ||
      (r.state.counters == Zeros() && FlushCount(r.events) == 1)
  {
    DispatchCountsKind(s, m, k);
    var d := DispatchItem(s, Decoded(m));
    var bumped := s.counters[k := s.counters[k] + 1];
    assert d.state.counters == bumped;
    NoFlushFromMessage(s, m);
    ThresholdsRestoreHealth(bumped);
    FlushCountAppend(d.events, Thresholds(bumped).1);
  }

  // -------------------------------------------------------------- thresholds

  /** Every kind seen at least twice: exactly one flush and all counters zero. */
  lemma LowWaterRule(c: seq<nat>)
    requires |c| == Kinds && AllAbove(c, LowWater)
    ensures Thresholds(c) == (Zeros(), [Flush(AllKindsSeen)])
  {
    assert !AnyAbove(Zeros(), HighWater);
    assert [Flush(AllKindsSeen)] + [] == [Flush(AllKindsSeen)];
  }

  /** One kind past the high-water mark: a flush and all counters zero,
      whatever the other two counters hold. */
  lemma HighWaterRule(c: seq<nat>)
    requires AnyAbove(c, HighWater)
    ensures Thresholds(c).0 == Zeros() && FlushCount(Thresholds(c).1) == 1
  {
    assert !AnyAbove(Zeros(), HighWater);
  }

  /** The threshold rules flush exactly when a rule applies, at most once,
      and always leave healthy counters behind. */
  lemma ThresholdsRestoreHealth(c: seq<nat>)
    requires |c| == Kinds
    ensures var (c', e) := Thresholds(c);
      Healthy(c') && |e| <= 1 && FlushCount(e) == |e| &&
      (e != [] <==> AllAbove(c, LowWater) || AnyAbove(c, HighWater)) &&
      (e == [] ==> c' == c) && (e != [] ==> c' == Zeros())
  {
    assert !AnyAbove(Zeros(), HighWater);
    assert !AllAbove(Zeros(), LowWater) by { assert Zeros()[0] == 0; }
  }

  /** A decoded message's own dispatch never flushes. */
  lemma NoFlushFromMessage(s: State, m: Message)
    requires WellFormed(s)
    ensures FlushCount(DispatchItem(s, Decoded(m)).events) == 0
  {
    var d := DispatchItem(s, Decoded(m));
    var acc := if AccuracyKnown(d.state.fields) then [Send(AccuracyPacket(d.state.fields))] else [];
    assert FlushCount(OwnEvents(m)) == 0;
    FlushCountAppend(OwnEvents(m), acc);
  }

  /** The pass whose message takes every counter above low water ends with
      exactly one flush, the low-water one, and leaves all counters at zero. */
  lemma LowWaterPass(s: State, m: Message)
    requires WellFormed(s) && AllAbove(DispatchItem(s, Decoded(m)).state.counters, LowWater)
    ensures var r := Step(s, Some(Decoded(m)));
      FlushCount(r.events) == 1 && r.events[|r.events| - 1] == Flush(AllKindsSeen) &&
      r.state.counters == Zeros()
  {
    var d := DispatchItem(s, Decoded(m));
    LowWaterRule(d.state.counters);
    NoFlushFromMessage(s, m);
    FlushCountAppend(d.events, [Flush(AllKindsSeen)]);
  }

  /** Whatever the counters were before, at most one flush per pass comes from
      the threshold rules: two in all only when the item was an unreadable frame. */
  lemma StepFlushBound(s: State, input: Option<Parsed>)
    requires WellFormed(s)
    ensures FlushCount(Step(s, input).events) <= if input.Some? && IsUnknownProtocol(input.value) then 2 else 1
  {
    var d := if input.Some? then DispatchItem(s, input.value) else Outcome(s, []);
    if input.Some? && input.value.Decoded? {
      NoFlushFromMessage(s, input.value.msg);
    }
    ThresholdsRestoreHealth(d.state.counters);
    FlushCountAppend(d.events, Thresholds(d.state.counters).1);
  }

  /** A tracked message that takes no counter past either threshold is
      counted and the pass flushes nothing. */
  lemma QuietPass(s: State, m: Message, k: nat)
    requires WellFormed(s) && TrackedAt(m, k)
    requires !AllAbove(s.counters[k := s.counters[k] + 1], LowWater)
    requires !AnyAbove(s.counters[k := s.counters[k] + 1], HighWater)
    ensures var r := Step(s, Some(Decoded(m)));
      r.state.counters == s.counters[k := s.counters[k] + 1] && FlushCount(r.events) == 0
  {
    StepCountsKind(s, m, k);
    var bumped := s.counters[k := s.counters[k] + 1];
    ThresholdsRestoreHealth(bumped);
  }

  /** The first three passes of the resynchronisation scenario below: two
      NAV-PVT and one NAV-RELPOSNED from the loop's start flush nothing. */
  lemma ResyncOpening(pvt: Message, rel: Message)
    requires pvt.NavPvt? && rel.NavRelPosNed?
    ensures var o1 := Step(Init(), Some(Decoded(pvt)));
      var o2 := Step(o1.state, Some(Decoded(pvt)));
      var o3 := Step(o2.state, Some(Decoded(rel)));
      FlushCount(o1.events) == 0 && FlushCount(o2.events) == 0 && FlushCount(o3.events) == 0 &&
      o3.state.counters == [2, 1, 0]
  {
    var s0 := Init();
    assert s0.counters[0 := 1] == [1, 0, 0] && s0.counters[0 := 1][1] == 0;
    QuietPass(s0, pvt, 0);
    var o1 := Step(s0, Some(Decoded(pvt)));
    assert o1.state.counters[0 := 2] == [2, 0, 0] && o1.state.counters[0 := 2][1] == 0;
    QuietPass(o1.state, pvt, 0);
    var o2 := Step(o1.state, Some(Decoded(pvt)));
    assert o2.state.counters[1 := 1] == [2, 1, 0] && o2.state.counters[1 := 1][2] == 0;
    QuietPass(o2.state, rel, 1);
  }

  /** The last three passes of the resynchronisation scenario: from counters
      `[2, 1, 0]`, NAV-RELPOSNED, NAV-SAT and NAV-SAT flush only on the last
      pass, once, with the low-water flush. */
  lemma ResyncClosing(s: State, rel: Message, sat: Message)
    requires WellFormed(s) && s.counters == [2, 1, 0]
    requires rel.NavRelPosNed? && sat.NavSat?
    ensures var o4 := Step(s, Some(Decoded(rel)));
      var o5 := Step(o4.state, Some(Decoded(sat)));
      var o6 := Step(o5.state, Some(Decoded(sat)));
      FlushCount(o4.events) == 0 && FlushCount(o5.events) == 0 &&
      FlushCount(o6.events) == 1 && o6.events[|o6.events| - 1] == Flush(AllKindsSeen) &&
      o6.state.counters == Zeros()
  {
    assert s.counters[1 := 2] == [2, 2, 0] && s.counters[1 := 2][2] == 0;
    QuietPass(s, rel, 1);
    var o4 := Step(s, Some(Decoded(rel)));
    assert o4.state.counters[2 := 1] == [2, 2, 1] && o4.state.counters[2 := 1][2] == 1;
    QuietPass(o4.state, sat, 2);
    var o5 := Step(o4.state, Some(Decoded(sat)));
    DispatchCountsKind(o5.state, sat, 2);
    assert DispatchItem(o5.state, Decoded(sat)).state.counters == [2, 2, 2];
    LowWaterPass(o5.state, sat);
  }

  /** The resynchronisation the low-water rule is for: from the loop's start,
      two NAV-PVT, two NAV-RELPOSNED and two NAV-SAT messages flush the serial
      port exactly once, on the sixth pass, and leave every counter at zero. */
  lemma ResyncScenario(pvt: Message, rel: Message, sat: Message)
    requires pvt.NavPvt? && rel.NavRelPosNed? && sat.NavSat?
    ensures var o1 := Step(Init(), Some(Decoded(pvt)));
      var o2 := Step(o1.state, Some(Decoded(pvt)));
      var o3 := Step(o2.state, Some(Decoded(rel)));
      var o4 := Step(o3.state, Some(Decoded(rel)));
      var o5 := Step(o4.state, Some(Decoded(sat)));
      var o6 := Step(o5.state, Some(Decoded(sat)));
      FlushCount(o1.events) == 0 && FlushCount(o2.events) == 0 && FlushCount(o3.events) == 0 &&
      FlushCount(o4.events) == 0 && FlushCount(o5.events) == 0 &&
      FlushCount(o6.events) == 1 && o6.events[|o6.events| - 1] == Flush(AllKindsSeen) &&
      o6.state.counters == Zeros()
  {
    ResyncOpening(pvt, rel);
    var o1 := Step(Init(), Some(Decoded(pvt)));
    var o2 := Step(o1.state, Some(Decoded(pvt)));
    var o3 := Step(o2.state, Some(Decoded(rel)));
    ResyncClosing(o3.state, rel, sat);
  }

  // -------------------------------------------------------- text and no input

  /** An "UNKNOWN PROTOCOL" text flushes, sends nothing and keeps the counters
      and remembered fields; the thresholds add nothing from healthy counters. */
  lemma UnknownProtocolStep(s: State, text: string)
    requires WellFormed(s) && Contains(text, UnknownProtocolMarker)
    ensures DispatchItem(s, Text(text)) == Outcome(s, [Flush(UnknownProtocol)])
    ensures var r := Step(s, Some(Text(text)));
      r.events[0] == Flush(UnknownProtocol) && NoSends(r.events) && r.state.fields == s.fields &&
      (Healthy(s.counters) ==> r == Outcome(s, [Flush(UnknownProtocol)]))
  {
    ThresholdsRestoreHealth(s.counters);
  }

  /** Any other text is ignored: the pass is the same as one with nothing waiting. */
  lemma OtherTextIgnored(s: State, text: string)
    requires WellFormed(s) && !Contains(text, UnknownProtocolMarker)
    ensures Step(s, Some(Text(text))) == Step(s, None)
  {
  }

  /** With nothing waiting, no packet is sent, the fields are kept and only the
      thresholds can change the counters; from healthy counters nothing happens. */
  lemma IdleStep(s: State)
    requires WellFormed(s)
    ensures var r := Step(s, None);
      NoSends(r.events) && r.state.fields == s.fields && r.state.counters == Thresholds(s.counters).0 &&
      (Healthy(s.counters) ==> r == Outcome(s, []))
  {
    ThresholdsRestoreHealth(s.counters);
  }

  // ---------------------------------------------------------- known messages

  /** NAV-PVT stores position and both accuracies and sends `(lat, lon)`. */
  lemma PvtOutputs(s: State, m: Message)
    requires WellFormed(s) && m.NavPvt?
    ensures var r := DispatchItem(s, Decoded(m));
      r.state.fields == s.fields.(lat := Some(m.lat), lon := Some(m.lon), hAcc := Some(m.hAcc), vAcc := Some(m.vAcc)) &&
      |r.events| >= 1 && r.events[0] == Send(Packet(GPSLatLon, Float, [m.lat, m.lon])) &&
      r.events[1..] == (if AccuracyKnown(r.state.fields) then [Send(AccuracyPacket(r.state.fields))] else [])
  {
  }

  /** NAV-RELPOSNED stores the heading accuracy and sends the negated heading,
      first as compass data, then as the yaw of the orientation packet. */
  lemma RelPosOutputs(s: State, m: Message)
    requires WellFormed(s) && m.NavRelPosNed?
    ensures var r := DispatchItem(s, Decoded(m));
      r.state.fields == s.fields.(accurHeading := Some(m.accHeading)) &&
      |r.events| >= 2 && r.events[0] == Send(Packet(CompassData, Float, [-m.relPosHeading])) &&
      r.events[2..] == (if AccuracyKnown(r.state.fields) then [Send(AccuracyPacket(r.state.fields))] else []) &&
      r.events[1] == Send(Packet(IMUData, Float, [0.0, -m.relPosHeading, 0.0]))
  {
  }

  /** NAV-SAT stores nothing and sends the satellite count as an int16 packet. */
  lemma SatOutputs(s: State, m: Message)
    requires WellFormed(s) && m.NavSat?
    ensures var r := DispatchItem(s, Decoded(m));
      r.state.fields == s.fields &&
      |r.events| >= 1 && r.events[0] == Send(Packet(SatelliteCountData, Int16, [m.numSvs as real])) &&
      r.events[1..] == (if AccuracyKnown(r.state.fields) then [Send(AccuracyPacket(r.state.fields))] else [])
  {
  }

  // -------------------------------------------------------- accuracy gating

  /** A decoded message ends with the accuracy packet exactly when horizontal,
      vertical and heading accuracy are all known after it; the packet is sent
      once, after the message's own packets, in metres. */
  lemma AccuracyGating(s: State, m: Message)
    requires WellFormed(s)
    ensures var r := DispatchItem(s, Decoded(m));
      var f := r.state.fields;
      (SendsAccuracy(r.events) <==> AccuracyKnown(f)) &&
      (AccuracyKnown(f) ==>
        r.events == OwnEvents(m) + [Send(AccuracyPacket(f))] &&
        r.events[|r.events| - 1].packet.values[0] == f.hAcc.value as real / 1000.0 &&
        r.events[|r.events| - 1].packet.values[1] == f.vAcc.value as real / 1000.0 &&
        r.events[|r.events| - 1].packet.values[2] == f.accurHeading.value)
  {
    var r := DispatchItem(s, Decoded(m));
    assert !IsUnknownProtocol(Decoded(m));
    assert forall i :: 0 <= i < |OwnEvents(m)| ==> OwnEvents(m)[i].packet.id != AccuracyData;
    if AccuracyKnown(r.state.fields) {
      assert r.events[|OwnEvents(m)|].packet.id == AccuracyData;
    } else {
      assert r.events == OwnEvents(m);
    }
  }

  /** A text item never sends the accuracy packet. */
  lemma TextSendsNoAccuracy(s: State, text: string)
    requires WellFormed(s)
    ensures !SendsAccuracy(DispatchItem(s, Text(text)).events)
  {
  }

  /** Once all three accuracies are known they stay known, whatever comes. */
  lemma AccuracyStaysKnown(s: State, input: Option<Parsed>)
    requires WellFormed(s) && AccuracyKnown(s.fields)
    ensures AccuracyKnown(Step(s, input).state.fields)
  {
  }

  /** Once known, every later decoded message, of any identity, sends the
      accuracy packet right after its own packets. */
  lemma AccuracyAfterEveryMessage(s: State, m: Message)
    requires WellFormed(s) && AccuracyKnown(s.fields)
    ensures var r := Step(s, Some(Decoded(m)));
      |r.events| > |OwnEvents(m)| && r.events[..|OwnEvents(m)|] == OwnEvents(m) &&
      r.events[|OwnEvents(m)|] == Send(AccuracyPacket(r.state.fields))
  {
    AccuracyGating(s, m);
    var d := DispatchItem(s, Decoded(m));
    assert AccuracyKnown(d.state.fields);
    var r := Step(s, Some(Decoded(m)));
    assert r.events == d.events + Thresholds(d.state.counters).1;
    assert r.state.fields == d.state.fields;
  }

  // --------------------------------------------------------------- runs

  lemma ConcatAssoc<T>(x: seq<T>, y: seq<T>, z: seq<T>)
    ensures (x + y) + z == x + (y + z)
  {
  }

  /** A run extended by one item is that run followed by one more pass. */
  lemma RunSnoc(s: State, xs: seq<Option<Parsed>>, x: Option<Parsed>)
    requires WellFormed(s)
    ensures var r := Run(s, xs);
      var last := Step(r.state, x);
      Run(s, xs + [x]) == Outcome(last.state, r.events + last.events)
  {
    assert (xs + [x])[..|xs|] == xs;
  }

  /** The loop processes items strictly in order: running two stretches of
      input one after the other is running them concatenated. */
  lemma {:induction false} RunConcat(s: State, a: seq<Option<Parsed>>, b: seq<Option<Parsed>>)
    requires WellFormed(s)
    ensures var ra := Run(s, a);
      var rb := Run(ra.state, b);
      Run(s, a + b) == Outcome(rb.state, ra.events + rb.events)
    decreases |b|
  {
    if b == [] {
      assert a + b == a;
    } else {
      var b' := b[..|b| - 1];
      var x := b[|b| - 1];
      assert b == b' + [x];
      assert a + b == (a + b') + [x];
      RunConcat(s, a, b');
      var ra := Run(s, a);
      RunSnoc(s, a + b', x);
      RunSnoc(ra.state, b', x);
      var rb' := Run(ra.state, b');
      var last := Step(rb'.state, x);
      ConcatAssoc(ra.events, rb'.events, last.events);
    }
  }

  /** Remembered accuracy is never forgotten over a run. */
  lemma {:induction false} RunAccuracyStaysKnown(s: State, inputs: seq<Option<Parsed>>)
    requires WellFormed(s) && AccuracyKnown(s.fields)
    ensures AccuracyKnown(Run(s, inputs).state.fields)
    decreases |inputs|
  {
    if inputs != [] {
      RunAccuracyStaysKnown(s, inputs[..|inputs| - 1]);
    }
  }

  /** The accuracy packet is never sent while any of the three accuracies is
      still unknown at the end of the run. */
  lemma {:induction false} RunAccuracyGated(s: State, inputs: seq<Option<Parsed>>)
    requires WellFormed(s)
    ensures !AccuracyKnown(Run(s, inputs).state.fields) ==> !SendsAccuracy(Run(s, inputs).events)
    decreases |inputs|
  {
    if inputs != [] {
      var prefix := inputs[..|inputs| - 1];
      var before := Run(s, prefix);
      var input := inputs[|inputs| - 1];
      var last := Step(before.state, input);
      if !AccuracyKnown(last.state.fields) {
        if AccuracyKnown(before.state.fields) {
          AccuracyStaysKnown(before.state, input);
        }
        RunAccuracyGated(s, prefix);
        var d := if input.Some? then DispatchItem(before.state, input.value) else Outcome(before.state, []);
        if input.Some? && input.value.Decoded? {
          AccuracyGating(before.state, input.value.msg);
        }
        assert !SendsAccuracy(d.events);
        ThresholdsRestoreHealth(d.state.counters);
        assert !SendsAccuracy(last.events);
        var es := Run(s, inputs).events;
        assert es == before.events + last.events;
        forall i | 0 <= i < |es| && es[i].Send?
          ensures es[i].packet.id != AccuracyData
        {
          if i < |before.events| {
            assert es[i] == before.events[i];
          } else {
            assert es[i] == last.events[i - |before.events|];
          }
        }
      }
    }
  }
}
