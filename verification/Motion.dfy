/** Motion read out of frame sizes. The state transitions of the detector, and
    what its reports mean in terms of the frames it has been fed. Seconds and
    differences are exact reals. */
module Motion {
  import opened Values

  const TYPICAL_SMOOTHING: real := 0.05
  const MINIMUM_DIFFERENCE: real := 0.015
  const WARMUP_FRAMES: nat := 8
  const CONFIRMING_FRAMES: nat := 2

  datatype Config = Config(sensitivity: real, hold: real)

  /** `callbacks` is every value the consumer has been called with. */
  datatype Detector = Detector(
    previousSize: nat, typical: real, frames: nat, exceeded: nat, motionUntil: real,
    detected: bool, lastDifference: real, callbacks: seq<bool>)

  const IDLE := Detector(0, 0.0, 0, 0, 0.0, false, 0.0, [])

  /** One call from outside, with what the clock reads if it is asked. */
  datatype Event = Sampled(size: nat, now: real) | Polled(now: real) | WasReset

  function Difference(size: nat, previous: nat): (d: real)
    requires previous > 0
    ensures d >= 0.0
    ensures d * previous as real
            == (if size < previous then previous - size else size - previous) as real
  {
    (if size < previous then previous - size else size - previous) as real / previous as real
  }

  function Threshold(cfg: Config, typical: real): real {
    MaxReal(typical * cfg.sensitivity, MINIMUM_DIFFERENCE)
  }

  /** The warm-up mean with one more difference, the `count`-th, taken in. */
  function Averaged(typical: real, difference: real, count: nat): real
    requires count > 0
  {
    typical + (difference - typical) / count as real
  }

  function Smoothed(typical: real, difference: real): real {
    typical + (difference - typical) * TYPICAL_SMOOTHING
  }

  function Publish(d: Detector, detected: bool): Detector {
    if detected == d.detected then d
    else d.(detected := detected, callbacks := d.callbacks + [detected])
  }

  function Sample(cfg: Config, d: Detector, size: nat, now: real): Detector {
    var previous := d.previousSize;
    var seen := d.(previousSize := size);
    if previous == 0 || size == 0 then seen
    else
      var difference := Difference(size, previous);
      var counted := seen.(lastDifference := difference, frames := d.frames + 1);
      if counted.frames <= WARMUP_FRAMES then
        counted.(typical := Averaged(d.typical, difference, counted.frames))
      else
        var judged :=
          if difference > Threshold(cfg, d.typical) then
            counted.(exceeded := d.exceeded + 1,
                     motionUntil := if d.exceeded + 1 >= CONFIRMING_FRAMES then now + cfg.hold
                                    else d.motionUntil)
          else
            counted.(exceeded := 0, typical := Smoothed(d.typical, difference));
        Publish(judged, now < judged.motionUntil)
  }

  function Poll(d: Detector, now: real): Detector {
    Publish(d, now < d.motionUntil)
  }

  function Reset(d: Detector): Detector {
    Publish(Detector(0, 0.0, 0, 0, 0.0, d.detected, 0.0, d.callbacks), false)
  }

  function Step(cfg: Config, d: Detector, event: Event): Detector {
    match event
    case Sampled(size, now) => Sample(cfg, d, size, now)
    case Polled(now) => Poll(d, now)
    case WasReset => Reset(d)
  }

  function Run(cfg: Config, events: seq<Event>): Detector {
    if events == [] then IDLE
    else Step(cfg, Run(cfg, events[..|events| - 1]), events[|events| - 1])
  }

  // ------------------------------------------- what the frames amount to

  /** A comparison of two successive frames, neither of them empty. */
  datatype Reading = Reading(difference: real, at: real)

  function LastSize(events: seq<Event>): nat {
    if events == [] then 0
    else match events[|events| - 1]
      case Sampled(size, _) => size
      case Polled(_) => LastSize(events[..|events| - 1])
      case WasReset => 0
  }

  /** The comparisons since the last reset, oldest first. */
  function Readings(events: seq<Event>): seq<Reading> {
    if events == [] then []
    else
      var before := Readings(events[..|events| - 1]);
      var previous := LastSize(events[..|events| - 1]);
      match events[|events| - 1]
      case Sampled(size, now) =>
        if previous == 0 || size == 0 then before
        else before + [Reading(Difference(size, previous), now)]
      case Polled(_) => before
      case WasReset => []
  }

  /** The typical difference that readings leave behind. */
  function Typical(cfg: Config, readings: seq<Reading>): real {
    if readings == [] then 0.0
    else
      var n := |readings|;
      var typical := Typical(cfg, readings[..n - 1]);
      var difference := readings[n - 1].difference;
      if n <= WARMUP_FRAMES then Averaged(typical, difference, n)
      else if difference > Threshold(cfg, typical) then typical
      else Smoothed(typical, difference)
  }

  /** Whether a difference exceeds the floor of 1.5% and the typical difference times
      the sensitivity. */
  predicate Exceeds(cfg: Config, difference: real, typical: real) {
    difference > 0.015 && difference > typical * cfg.sensitivity
  }

  /** A reading past the first eight that exceeds both. */
  predicate Loud(cfg: Config, readings: seq<Reading>, k: int) {
    && 8 <= k < |readings|
    && Exceeds(cfg, readings[k].difference, Typical(cfg, readings[..k]))
  }

  /** That is what the detector's threshold decides. */
  lemma ThresholdExactly(cfg: Config, difference: real, typical: real)
    ensures difference > Threshold(cfg, typical) <==> Exceeds(cfg, difference, typical)
  {
  }

  /** A loud reading right after a loud reading. */
  predicate Confirms(cfg: Config, readings: seq<Reading>, k: int) {
    Loud(cfg, readings, k - 1) && Loud(cfg, readings, k)
  }

  /** The differences the detector learnt from: the warm-up and the quiet ones. */
  function Learnt(cfg: Config, readings: seq<Reading>): seq<real> {
    if readings == [] then []
    else
      var n := |readings| - 1;
      Learnt(cfg, readings[..n])
      + (if Loud(cfg, readings, n) then [] else [readings[n].difference])
  }

  function Sum(readings: seq<Reading>): real {
    if readings == [] then 0.0
    else Sum(readings[..|readings| - 1]) + readings[|readings| - 1].difference
  }

  function Largest(s: seq<real>): real
    requires s != []
  {
    if |s| == 1 then s[0] else MaxReal(Largest(s[..|s| - 1]), s[|s| - 1])
  }

  function Smallest(s: seq<real>): real
    requires s != []
  {
    if |s| == 1 then s[0] else MinReal(Smallest(s[..|s| - 1]), s[|s| - 1])
  }

  /** When motion was last published or withdrawn, since the last reset. */
  predicate Publishes(events: seq<Event>, event: Event) {
    match event
    case Sampled(size, _) =>
      LastSize(events) != 0 && size != 0 && |Readings(events)| >= WARMUP_FRAMES
    case Polled(_) => true
    case WasReset => false
  }

  datatype Moment = Never | At(now: real)

  /** The clock when the state was last published since the last reset. */
  function LastPublished(events: seq<Event>): Moment {
    if events == [] then Never
    else
      var before, last := events[..|events| - 1], events[|events| - 1];
      if last.WasReset? then Never
      else if Publishes(before, last) then At(last.now)
      else LastPublished(before)
  }

  /** The clock of the last call that carried one. */
  function LastClock(events: seq<Event>): real {
    if events == [] then 0.0
    else
      var last := events[|events| - 1];
      if last.WasReset? then LastClock(events[..|events| - 1]) else last.now
  }

  /** A clock that starts at or above zero and never runs backwards. */
  predicate Monotone(events: seq<Event>) {
    events == []
    || (var before, last := events[..|events| - 1], events[|events| - 1];
        Monotone(before) && (last.WasReset? || LastClock(before) <= last.now))
  }

  // ------------------------------------------------------- the state

  function LoudRun(cfg: Config, readings: seq<Reading>): nat {
    if readings == [] || !Loud(cfg, readings, |readings| - 1) then 0
    else 1 + LoudRun(cfg, readings[..|readings| - 1])
  }

  function HeldUntil(cfg: Config, readings: seq<Reading>): real {
    if readings == [] then 0.0
    else if Confirms(cfg, readings, |readings| - 1) then
      readings[|readings| - 1].at + cfg.hold
    else HeldUntil(cfg, readings[..|readings| - 1])
  }

  predicate Tracks(cfg: Config, d: Detector, previousSize: nat, readings: seq<Reading>) {
    && d.previousSize == previousSize
    && d.frames == |readings|
    && d.typical == Typical(cfg, readings)
    && d.exceeded == LoudRun(cfg, readings)
    && d.motionUntil == HeldUntil(cfg, readings)
    && d.lastDifference == (if readings == [] then 0.0
                            else readings[|readings| - 1].difference)
  }

  lemma LoudInPrefix(cfg: Config, readings: seq<Reading>, n: nat, k: int)
    requires k < n <= |readings|
    ensures Loud(cfg, readings[..n], k) == Loud(cfg, readings, k)
    ensures Confirms(cfg, readings[..n], k) == Confirms(cfg, readings, k)
  {
    hide Typical, Threshold;
    if 0 <= k {
      assert readings[..n][..k] == readings[..k];
    }
    if 0 <= k - 1 {
      assert readings[..n][..k - 1] == readings[..k - 1];
    }
  }

  lemma LoudRunConfirms(cfg: Config, readings: seq<Reading>)
    ensures readings != [] ==>
              (LoudRun(cfg, readings) >= CONFIRMING_FRAMES
               <==> Confirms(cfg, readings, |readings| - 1))
  {
    if readings != [] {
      var n := |readings| - 1;
      hide Loud;
      LoudInPrefix(cfg, readings, n, n - 1);
      if n == 0 {
        assert !Loud(cfg, readings, -1) by {
          assert WARMUP_FRAMES > 0;
          NegativeIsNotLoud(cfg, readings);
        }
      }
    }
  }

  lemma NegativeIsNotLoud(cfg: Config, readings: seq<Reading>)
    ensures !Loud(cfg, readings, -1)
  {
  }

  lemma OneMoreLoud(cfg: Config, before: seq<Reading>, reading: Reading)
    ensures Loud(cfg, before + [reading], |before|)
            == (|before| >= WARMUP_FRAMES
                && reading.difference > Threshold(cfg, Typical(cfg, before)))
  {
    ThresholdExactly(cfg, reading.difference, Typical(cfg, before));
    hide Threshold, Exceeds, Typical;
    assert (before + [reading])[..|before|] == before;
  }

  /** What a reading appended to the others does to each measure. */
  lemma OneMoreReading(cfg: Config, before: seq<Reading>, reading: Reading, loud: bool)
    requires loud == (|before| >= WARMUP_FRAMES
                      && reading.difference > Threshold(cfg, Typical(cfg, before)))
    ensures LoudRun(cfg, before + [reading]) == (if loud then LoudRun(cfg, before) + 1 else 0)
    ensures HeldUntil(cfg, before + [reading])
            == (if LoudRun(cfg, before + [reading]) >= CONFIRMING_FRAMES
                then reading.at + cfg.hold else HeldUntil(cfg, before))
  {
    var readings := before + [reading];
    assert readings[..|before|] == before;
    hide Threshold, Typical, Loud, Confirms;
    OneMoreLoud(cfg, before, reading);
    LoudRunConfirms(cfg, readings);
  }

  lemma OneMoreTypical(cfg: Config, before: seq<Reading>, reading: Reading)
    ensures Typical(cfg, before + [reading])
            == (var typical := Typical(cfg, before);
                if |before| < WARMUP_FRAMES
                then Averaged(typical, reading.difference, |before| + 1)
                else if reading.difference > Threshold(cfg, typical) then typical
                else Smoothed(typical, reading.difference))
  {
    assert (before + [reading])[..|before|] == before;
    hide Threshold;
  }

  lemma SampleTracks(cfg: Config, d: Detector, previous: nat, readings: seq<Reading>, size: nat,
                     now: real)
    requires Tracks(cfg, d, previous, readings) && previous != 0 && size != 0
    ensures Tracks(cfg, Sample(cfg, d, size, now), size,
                   readings + [Reading(Difference(size, previous), now)])
  {
    var reading := Reading(Difference(size, previous), now);
    var loud := |readings| >= WARMUP_FRAMES
                && reading.difference > Threshold(cfg, Typical(cfg, readings));
    OneMoreReading(cfg, readings, reading, loud);
    OneMoreTypical(cfg, readings, reading);
    LoudAfterWarmUp(cfg, readings);
    hide Difference, Threshold, Typical, LoudRun, HeldUntil;
  }

  lemma LoudAfterWarmUp(cfg: Config, readings: seq<Reading>)
    ensures |readings| <= WARMUP_FRAMES ==> LoudRun(cfg, readings) == 0
  {
  }

  /** The detector's fields are the measures of the readings since the reset. */
  lemma {:induction false} StateTracksReadings(cfg: Config, events: seq<Event>)
    ensures Tracks(cfg, Run(cfg, events), LastSize(events), Readings(events))
  {
    if events == [] {
      return;
    }
    var before, last := events[..|events| - 1], events[|events| - 1];
    StateTracksReadings(cfg, before);
    var d := Run(cfg, before);
    hide Difference, Threshold, Typical, LoudRun, HeldUntil;
    match last
    case Sampled(size, now) =>
      hide Tracks;
      if LastSize(before) != 0 && size != 0 {
        SampleTracks(cfg, d, LastSize(before), Readings(before), size, now);
      } else {
        SkippedTracks(cfg, d, LastSize(before), Readings(before), size, now);
      }
    case Polled(_) =>
    case WasReset =>
      EmptyMeasures(cfg);
  }

  lemma SkippedTracks(cfg: Config, d: Detector, previous: nat, readings: seq<Reading>, size: nat,
                      now: real)
    requires Tracks(cfg, d, previous, readings) && (previous == 0 || size == 0)
    ensures Tracks(cfg, Sample(cfg, d, size, now), size, readings)
  {
  }

  lemma EmptyMeasures(cfg: Config)
    ensures Typical(cfg, []) == 0.0 && LoudRun(cfg, []) == 0 && HeldUntil(cfg, []) == 0.0
  {
  }

  // ------------------------------------------------ the typical difference

  /** During the warm-up the typical difference is the mean of the readings. */
  lemma WarmUpIsMean(cfg: Config, events: seq<Event>)
    requires 0 < |Readings(events)| <= WARMUP_FRAMES
    ensures Run(cfg, events).typical == Sum(Readings(events)) / |Readings(events)| as real
  {
    StateTracksReadings(cfg, events);
    var readings := Readings(events);
    TypicalIsMean(cfg, readings);
    QuotientOf(Run(cfg, events).typical, |readings|, Sum(readings));
  }

  predicate IsMean(x: real, n: nat, total: real) { x * n as real == total }

  lemma QuotientOf(x: real, n: nat, total: real)
    requires n > 0 && IsMean(x, n, total)
    ensures x == total / n as real
  {
  }

  lemma {:induction false} TypicalIsMean(cfg: Config, readings: seq<Reading>)
    requires |readings| <= WARMUP_FRAMES
    ensures IsMean(Typical(cfg, readings), |readings|, Sum(readings))
  {
    if readings == [] {
      return;
    }
    var n := |readings| as real;
    TypicalIsMean(cfg, readings[..|readings| - 1]);
    var typical, d := Typical(cfg, readings[..|readings| - 1]), readings[|readings| - 1].difference;
    MeanStep(typical, d, n);
  }

  lemma MeanStep(typical: real, d: real, n: real)
    requires n > 0.0
    ensures (typical + (d - typical) / n) * n == typical * (n - 1.0) + d
  {
    assert ((d - typical) / n) * n == d - typical;
  }

  lemma {:induction false} LearntFromTheFirst(cfg: Config, readings: seq<Reading>)
    ensures Learnt(cfg, readings) == [] <==> readings == []
  {
    if readings != [] {
      var n := |readings| - 1;
      LearntFromTheFirst(cfg, readings[..n]);
    }
  }

  lemma Shrinks(gap: real, weight: real, moved: real)
    requires gap >= 0.0 && 0.0 <= weight <= 1.0 && moved == gap * weight
    ensures 0.0 <= moved <= gap
  {
    assert gap * (1.0 - weight) >= 0.0;
  }

  lemma Between(typical: real, d: real, weight: real)
    requires 0.0 <= weight <= 1.0
    ensures MinReal(typical, d) <= typical + (d - typical) * weight <= MaxReal(typical, d)
  {
    if d >= typical {
      Shrinks(d - typical, weight, (d - typical) * weight);
    } else {
      assert (d - typical) * weight == -((typical - d) * weight);
      Shrinks(typical - d, weight, (typical - d) * weight);
    }
  }

  lemma MeanIsBetween(typical: real, d: real, m: nat)
    requires m > 0
    ensures MinReal(typical, d) <= Averaged(typical, d, m) <= MaxReal(typical, d)
  {
    DividedIsWeighted(d - typical, m as real);
    Between(typical, d, 1.0 / m as real);
  }

  lemma SmoothedIsBetween(typical: real, d: real)
    ensures MinReal(typical, d) <= Smoothed(typical, d) <= MaxReal(typical, d)
  {
    Between(typical, d, TYPICAL_SMOOTHING);
  }

  lemma DividedIsWeighted(a: real, m: real)
    requires m >= 1.0
    ensures a / m == a * (1.0 / m) && 0.0 <= 1.0 / m <= 1.0
  {
  }

  /** A reading that is learnt moves the typical difference towards itself; a
      loud one leaves it alone. */
  lemma TypicalMoves(cfg: Config, readings: seq<Reading>, typical: real, d: real)
    requires readings != []
    requires typical == Typical(cfg, readings[..|readings| - 1])
    requires d == readings[|readings| - 1].difference
    ensures Loud(cfg, readings, |readings| - 1) ==> Typical(cfg, readings) == typical
    ensures !Loud(cfg, readings, |readings| - 1) ==>
              MinReal(typical, d) <= Typical(cfg, readings) <= MaxReal(typical, d)
  {
    ThresholdExactly(cfg, d, typical);
    MeanIsBetween(typical, d, |readings|);
    SmoothedIsBetween(typical, d);
    hide Exceeds, Threshold, MinReal, MaxReal, Averaged, Smoothed;
  }

  lemma ExtremesOfMore(s: seq<real>, d: real)
    requires s != []
    ensures Largest(s + [d]) == MaxReal(Largest(s), d)
    ensures Smallest(s + [d]) == MinReal(Smallest(s), d)
  {
    assert (s + [d])[..|s|] == s;
  }

  /** The typical difference never leaves the range of what was learnt. */
  lemma {:induction false} TypicalIsLearnt(cfg: Config, readings: seq<Reading>)
    requires readings != []
    ensures Learnt(cfg, readings) != []
    ensures Smallest(Learnt(cfg, readings)) <= Typical(cfg, readings)
            <= Largest(Learnt(cfg, readings))
  {
    var n := |readings| - 1;
    var d := readings[n].difference;
    if n == 0 {
      FirstIsTypical(cfg, readings);
      return;
    }
    TypicalIsLearnt(cfg, readings[..n]);
    TypicalMoves(cfg, readings, Typical(cfg, readings[..n]), d);
    ExtremesOfMore(Learnt(cfg, readings[..n]), d);
    assert Learnt(cfg, readings[..n]) + [] == Learnt(cfg, readings[..n]);
    hide Loud, Typical, Smallest, Largest;
  }

  lemma FirstIsTypical(cfg: Config, readings: seq<Reading>)
    requires |readings| == 1
    ensures Typical(cfg, readings) == readings[0].difference
    ensures Learnt(cfg, readings) == [readings[0].difference]
  {
    assert readings[..0] == [];
    assert Typical(cfg, []) == 0.0 && Learnt(cfg, []) == [];
    assert !Loud(cfg, readings, 0);
  }

  lemma {:induction false} ReadingsAreNonNegative(events: seq<Event>)
    ensures forall k :: 0 <= k < |Readings(events)| ==> Readings(events)[k].difference >= 0.0
  {
    if events != [] {
      ReadingsAreNonNegative(events[..|events| - 1]);
    }
  }

  lemma {:induction false} LearntAreNonNegative(cfg: Config, readings: seq<Reading>)
    requires forall k :: 0 <= k < |readings| ==> readings[k].difference >= 0.0
    ensures forall k :: 0 <= k < |Learnt(cfg, readings)| ==> Learnt(cfg, readings)[k] >= 0.0
  {
    if readings != [] {
      LearntAreNonNegative(cfg, readings[..|readings| - 1]);
    }
  }

  lemma {:induction false} SmallestIsNonNegative(s: seq<real>)
    requires s != [] && forall k :: 0 <= k < |s| ==> s[k] >= 0.0
    ensures Smallest(s) >= 0.0
  {
    if |s| > 1 {
      SmallestIsNonNegative(s[..|s| - 1]);
    }
  }

  /** Whatever frames arrive, the typical difference stays between zero and the
      largest difference learnt since the reset, and is zero before the first. */
  lemma TypicalStaysInRange(cfg: Config, events: seq<Event>)
    ensures var learnt := Learnt(cfg, Readings(events));
            var typical := Run(cfg, events).typical;
            if learnt == [] then typical == 0.0
            else 0.0 <= Smallest(learnt) <= typical <= Largest(learnt)
  {
    var readings := Readings(events);
    StateTracksReadings(cfg, events);
    LearntFromTheFirst(cfg, readings);
    hide Run, Readings, Learnt;
    if readings != [] {
      TypicalIsLearnt(cfg, readings);
      ReadingsAreNonNegative(events);
      LearntAreNonNegative(cfg, readings);
      SmallestIsNonNegative(Learnt(cfg, readings));
    }
  }

  // ----------------------------------------------------------- reporting

  lemma {:induction false} CallbacksAlternate(cfg: Config, events: seq<Event>)
    ensures Alternates(Run(cfg, events).callbacks, true)
    ensures Run(cfg, events).detected == (|Run(cfg, events).callbacks| % 2 == 1)
  {
    if events != [] {
      var before := Run(cfg, events[..|events| - 1]);
      CallbacksAlternate(cfg, events[..|events| - 1]);
      hide Run;
      assert Run(cfg, events) == Step(cfg, before, events[|events| - 1]) by {
        RunLast(cfg, events);
      }
      StepAlternates(cfg, before, events[|events| - 1]);
    }
  }

  lemma RunLast(cfg: Config, events: seq<Event>)
    requires events != []
    ensures Run(cfg, events)
            == Step(cfg, Run(cfg, events[..|events| - 1]), events[|events| - 1])
  {
  }

  lemma StepAlternates(cfg: Config, d: Detector, event: Event)
    requires Alternates(d.callbacks, true) && d.detected == (|d.callbacks| % 2 == 1)
    ensures Alternates(Step(cfg, d, event).callbacks, true)
    ensures Step(cfg, d, event).detected == (|Step(cfg, d, event).callbacks| % 2 == 1)
  {
    hide Threshold, Difference;
  }

  /** What is reported is what was last published, and that was a comparison of
      the clock with the end of the hold. */
  lemma {:induction false} DetectedIsLastPublished(cfg: Config, events: seq<Event>)
    ensures Run(cfg, events).detected
            <==> LastPublished(events).At?
                 && LastPublished(events).now < HeldUntil(cfg, Readings(events))
  {
    if events == [] {
      return;
    }
    var before, last := events[..|events| - 1], events[|events| - 1];
    DetectedIsLastPublished(cfg, before);
    StateTracksReadings(cfg, before);
    StateTracksReadings(cfg, events);
    hide Difference, Threshold, Typical, LoudRun;
    if last.Sampled? && LastSize(before) != 0 && last.size != 0
       && |Readings(before)| < WARMUP_FRAMES {
      NothingConfirmedYet(cfg, Readings(before));
      NothingConfirmedYet(cfg, Readings(events));
    }
  }

  lemma {:induction false} NothingConfirmedYet(cfg: Config, readings: seq<Reading>)
    requires |readings| <= WARMUP_FRAMES
    ensures HeldUntil(cfg, readings) == 0.0
  {
    if readings != [] {
      NothingConfirmedYet(cfg, readings[..|readings| - 1]);
    }
  }

  lemma {:induction false} ReadingsPrecedeTheClock(events: seq<Event>)
    requires Monotone(events)
    ensures LastClock(events) >= 0.0
    ensures forall k :: 0 <= k < |Readings(events)| ==>
              0.0 <= Readings(events)[k].at <= LastClock(events)
    ensures forall j, k :: 0 <= j < k < |Readings(events)| ==>
              Readings(events)[j].at <= Readings(events)[k].at
    ensures LastPublished(events).At? ==> 0.0 <= LastPublished(events).now
  {
    if events != [] {
      ReadingsPrecedeTheClock(events[..|events| - 1]);
      hide Difference;
    }
  }

  /** Whether some confirming reading's hold is still running at a moment. */
  ghost predicate HoldRuns(cfg: Config, readings: seq<Reading>, now: real) {
    exists k :: Confirms(cfg, readings, k) && now < readings[k].at + cfg.hold
  }

  lemma {:induction false} HoldIsTheLatest(cfg: Config, readings: seq<Reading>, now: real)
    requires now >= 0.0
    requires forall j, k :: 0 <= j < k < |readings| ==> readings[j].at <= readings[k].at
    ensures now < HeldUntil(cfg, readings) <==> HoldRuns(cfg, readings, now)
  {
    if readings == [] {
      return;
    }
    var n := |readings| - 1;
    hide Loud;
    if Confirms(cfg, readings, n) {
      hide HoldRuns;
      LastConfirms(cfg, readings, now);
    } else {
      HoldIsTheLatest(cfg, readings[..n], now);
      hide Confirms, HoldRuns;
      LastDoesNotConfirm(cfg, readings, now);
    }
  }

  lemma LastConfirms(cfg: Config, readings: seq<Reading>, now: real)
    requires readings != [] && Confirms(cfg, readings, |readings| - 1)
    requires forall j, k :: 0 <= j < k < |readings| ==> readings[j].at <= readings[k].at
    ensures HoldRuns(cfg, readings, now) <==> now < readings[|readings| - 1].at + cfg.hold
  {
    hide Threshold, Typical;
  }

  lemma LastDoesNotConfirm(cfg: Config, readings: seq<Reading>, now: real)
    requires readings != [] && !Confirms(cfg, readings, |readings| - 1)
    ensures HoldRuns(cfg, readings, now)
            <==> HoldRuns(cfg, readings[..|readings| - 1], now)
  {
    var n := |readings| - 1;
    hide Threshold, Typical;
    forall k | k < n
      ensures Confirms(cfg, readings[..n], k) == Confirms(cfg, readings, k)
    {
      LoudInPrefix(cfg, readings, n, k);
    }
  }

  /** Motion is reported exactly while the hold of some confirming reading since
      the reset was running when the state was last published: it needs two
      successive loud comparisons past the warm-up, and it lasts until the hold
      expires or the detector is reset. */
  lemma DetectedIffHeld(cfg: Config, events: seq<Event>)
    requires Monotone(events)
    ensures Run(cfg, events).detected
            <==> LastPublished(events).At?
                 && HoldRuns(cfg, Readings(events), LastPublished(events).now)
  {
    DetectedIsLastPublished(cfg, events);
    ReadingsPrecedeTheClock(events);
    if LastPublished(events).At? {
      HoldIsTheLatest(cfg, Readings(events), LastPublished(events).now);
    }
  }

  lemma {:induction false} UnpublishedIsWarmingUp(events: seq<Event>)
    requires LastPublished(events) == Never
    ensures |Readings(events)| <= WARMUP_FRAMES
  {
    if events != [] && !events[|events| - 1].WasReset? {
      UnpublishedIsWarmingUp(events[..|events| - 1]);
    }
  }

  lemma {:induction false} PublishedByNow(events: seq<Event>)
    requires Monotone(events)
    ensures LastPublished(events).At? ==> LastPublished(events).now <= LastClock(events)
  {
    if events != [] {
      PublishedByNow(events[..|events| - 1]);
    }
  }

  /** With no motion reported, no hold is left running. */
  lemma QuietIsOver(cfg: Config, events: seq<Event>)
    requires Monotone(events) && !Run(cfg, events).detected
    ensures HeldUntil(cfg, Readings(events)) <= LastClock(events)
  {
    DetectedIsLastPublished(cfg, events);
    ReadingsPrecedeTheClock(events);
    if LastPublished(events).Never? {
      UnpublishedIsWarmingUp(events);
      NothingConfirmedYet(cfg, Readings(events));
    } else {
      PublishedByNow(events);
    }
  }

  /** A call that turns the report on is a frame whose comparison confirms the
      one before it; polling never does, and neither does a reset. */
  lemma RisesOnConfirmation(cfg: Config, events: seq<Event>)
    requires Monotone(events) && events != []
    requires !Run(cfg, events[..|events| - 1]).detected && Run(cfg, events).detected
    ensures events[|events| - 1].Sampled?
    ensures |Readings(events)| == |Readings(events[..|events| - 1])| + 1
    ensures Confirms(cfg, Readings(events), |Readings(events)| - 1)
  {
    var before, last := events[..|events| - 1], events[|events| - 1];
    DetectedIsLastPublished(cfg, before);
    DetectedIsLastPublished(cfg, events);
    QuietIsOver(cfg, before);
    hide Run, Confirms, Difference;
    if |Readings(events)| <= WARMUP_FRAMES {
      NothingConfirmedYet(cfg, Readings(events));
      NothingConfirmedYet(cfg, Readings(before));
      ReadingsPrecedeTheClock(events);
    }
  }

  lemma {:induction false} NothingHeld(cfg: Config, readings: seq<Reading>)
    requires forall k :: !Confirms(cfg, readings, k)
    ensures HeldUntil(cfg, readings) == 0.0
  {
    if readings != [] {
      var n := |readings| - 1;
      assert !Confirms(cfg, readings, n);
      forall k
        ensures !Confirms(cfg, readings[..n], k)
      {
        if k < n {
          LoudInPrefix(cfg, readings, n, k);
        }
      }
      NothingHeld(cfg, readings[..n]);
    }
  }

  /** For every clock: while no reading since the reset confirms, motion is reported
      if and only if the clock was below zero when the state was last published. */
  lemma UnconfirmedReportIff(cfg: Config, events: seq<Event>)
    requires forall k :: !Confirms(cfg, Readings(events), k)
    ensures Run(cfg, events).detected
            <==> LastPublished(events).At? && LastPublished(events).now < 0.0
  {
    DetectedIsLastPublished(cfg, events);
    NothingHeld(cfg, Readings(events));
  }

  /** The shortest such report: the first poll of an idle detector, with the clock
      one second below zero. */
  lemma NegativeClockReportsMotion(cfg: Config)
    ensures Run(cfg, [Polled(-1.0)]).detected && Readings([Polled(-1.0)]) == []
  {
    assert [Polled(-1.0)][..0] == [];
    UnconfirmedReportIff(cfg, [Polled(-1.0)]);
  }

  lemma SmoothedExactly(typical: real, d: real)
    ensures Smoothed(typical, d) == 0.95 * typical + 0.05 * d
  {
  }

  /** How the typical difference moves: not for a loud reading, and by a twentieth of
      the way for a quiet one past the warm-up. */
  lemma TypicalExactly(cfg: Config, readings: seq<Reading>)
    requires |readings| > 8
    ensures var n := |readings| - 1;
            var typical := Typical(cfg, readings[..n]);
            Typical(cfg, readings)
            == if Loud(cfg, readings, n) then typical
               else 0.95 * typical + 0.05 * readings[n].difference
  {
    var n := |readings| - 1;
    var typical, d := Typical(cfg, readings[..n]), readings[n].difference;
    ThresholdExactly(cfg, d, typical);
    hide Threshold, Exceeds;
    SmoothedExactly(typical, d);
    hide Smoothed;
  }

  /** One frame in full. A first or an empty one is only remembered; the first eight
      comparisons only teach; any other counts towards a confirmation or ends the
      count, two in a row start the hold, and the state is published. */
  lemma SampleExactly(cfg: Config, d: Detector, size: nat, now: real)
    ensures var after := Sample(cfg, d, size, now);
            && after.previousSize == size
            && (d.previousSize == 0 || size == 0 ==> after == d.(previousSize := size))
            && (d.previousSize > 0 && size > 0 ==>
                  var difference := Difference(size, d.previousSize);
                  var loud := Exceeds(cfg, difference, d.typical);
                  && after.lastDifference == difference && after.frames == d.frames + 1
                  && (d.frames < 8 ==>
                        && after.exceeded == d.exceeded && after.motionUntil == d.motionUntil
                        && after.detected == d.detected && after.callbacks == d.callbacks)
                  && (d.frames >= 8 ==>
                        && after.exceeded == (if loud then d.exceeded + 1 else 0)
                        && after.motionUntil
                           == (if loud && d.exceeded >= 1 then now + cfg.hold
                               else d.motionUntil)
                        && after.detected == (now < after.motionUntil)
                        && (loud ==> after.typical == d.typical)))
  {
    if d.previousSize > 0 && size > 0 {
      ThresholdExactly(cfg, Difference(size, d.previousSize), d.typical);
      hide Threshold, Exceeds, Difference, Averaged, Smoothed;
    }
  }

  /** A poll compares the clock with the end of the hold; a reset forgets everything
      but the callbacks made, and withdraws the motion reported. */
  lemma PollExactly(d: Detector, now: real)
    ensures Poll(d, now).detected == (now < d.motionUntil)
    ensures Poll(d, now) == d.(detected := Poll(d, now).detected,
                               callbacks := Poll(d, now).callbacks)
    ensures Reset(d) == Detector(0, 0.0, 0, 0, 0.0, false, 0.0,
                                 d.callbacks + if d.detected then [false] else [])
  {
    assert d.callbacks + [] == d.callbacks;
  }
}
