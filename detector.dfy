/**
  The wall-contact detector of `analyzeVideo` in script.js and the split
  derivation that follows it.

  The video is sampled at t = 0, step, 2 step, ... while t < duration, with
  step = 1 / max(sampleRate, 1). Sample k is the canvas frame `frames[k]` drawn
  at that time (seeking and drawing are outside the model); its brightness is
  the zone average of that frame, and the specification works on the sequence
  of those brightness values. A sample fires when its brightness differs from the previous sample's by more
  than `sensitivity`; a firing sample becomes a contact time when there is no
  earlier contact or the last one lies more than 3.5 s back.
 */
module Detector {
  import opened Outcomes
  import opened Brightness
  import Pacing

  /** The minimum gap, in seconds, between two recorded wall contacts. */
  const MinGap: real := 3.5

  /** The time between samples: one over the sample rate, with rates below 1 raised to 1. */
  function FrameStep(sampleRate: real): (step: real)
    ensures 0.0 < step <= 1.0
    ensures sampleRate >= 1.0 ==> step * sampleRate == 1.0
  {
    1.0 / (if sampleRate > 1.0 then sampleRate else 1.0)
  }

  /** The time of sample k. */
  function SampleTime(k: nat, step: real): real {
    k as real * step
  }

  lemma SampleTimeMonotone(j: nat, k: nat, step: real)
    requires j < k && step > 0.0
    ensures SampleTime(j, step) < SampleTime(k, step)
  {
    assert SampleTime(k, step) == SampleTime(j, step) + (k - j) as real * step;
  }

  lemma NextSampleTime(k: nat, step: real)
    ensures SampleTime(k + 1, step) == SampleTime(k, step) + step
  {
  }

  /** A sample taken before the duration is one the trace covers. */
  lemma SampleInside(k: nat, m: nat, step: real, duration: real)
    requires step > 0.0 && SampleTime(k, step) < duration <= SampleTime(m, step)
    ensures k < m
  {
    if k > m {
      SampleTimeMonotone(m, k, step);
    }
  }

  /**
    How many samples the scan takes, counting on from sample `from`: the first k
    whose time is not below the duration. `limit` only bounds the count; the scan
    never reaches it when the brightness trace covers the duration.
   */
  function SampleCount(duration: real, step: real, from: nat, limit: nat): (n: nat)
    requires from <= limit
    ensures from <= n <= limit
    ensures forall j :: from <= j < n ==> SampleTime(j, step) < duration
    ensures n < limit ==> SampleTime(n, step) >= duration
    decreases limit - from
  {
    if from == limit || SampleTime(from, step) >= duration then from
    else SampleCount(duration, step, from + 1, limit)
  }

  /** Sample k fires: it has a predecessor and its brightness jumps by more than the sensitivity. */
  predicate Fires(bright: seq<real>, sensitivity: real, k: nat) {
    1 <= k < |bright| && Pacing.Abs(bright[k] - bright[k - 1]) > sensitivity
  }

  function Last(events: seq<real>): Option<real> {
    if |events| == 0 then None else Some(events[|events| - 1])
  }

  /** JavaScript's `!last` for a number or `undefined`: true for `undefined` and for 0. */
  predicate Falsy(last: Option<real>) {
    last.None? || last.value == 0.0
  }

  /**
    The contact times recorded over the first n samples: a firing sample is
    recorded when there is no contact yet or the last one is more than 3.5 s back.
   */
  function Detect(bright: seq<real>, step: real, sensitivity: real, n: nat): seq<real>
    requires n <= |bright|
  {
    if n == 0 then []
    else
      var events := Detect(bright, step, sensitivity, n - 1);
      var t := SampleTime(n - 1, step);
      if Fires(bright, sensitivity, n - 1) && (|events| == 0 || t - events[|events| - 1] > MinGap)
      then events + [t]
      else events
  }

  /** The contact times a full scan records. */
  function ScanSpec(bright: seq<real>, duration: real, sampleRate: real, sensitivity: real): seq<real> {
    var step := FrameStep(sampleRate);
    Detect(bright, step, sensitivity, SampleCount(duration, step, 0, |bright|))
  }

  /** The zone brightness of every frame, in order. */
  function ZoneTrace(frames: seq<array<byte>>, width: nat, zone: Zone): (bright: seq<real>)
    reads frames
    ensures |bright| == |frames|
    ensures forall i :: 0 <= i < |frames| ==> bright[i] == ZoneAverage(frames[i][..], width, zone)
  {
    if |frames| == 0 then []
    else ZoneTrace(frames[..|frames| - 1], width, zone) + [ZoneAverage(frames[|frames| - 1][..], width, zone)]
  }

  /**
    The detection loop of `analyzeVideo`. `previous` is null before the first
    sample, so that sample never fires; `!last` is tested as written, and since
    every contact time is positive it only holds when there is no contact yet.
    There must be a frame for every sample time before the duration.
   */
  method ScanEvents(frames: seq<array<byte>>, width: nat, height: nat, zone: Zone,
                    duration: real, sampleRate: real, sensitivity: real) returns (contactTimes: seq<real>)
    requires forall i :: 0 <= i < |frames| ==> frames[i].Length == width * height * 4
    requires ZoneWithin(zone, width, height)
    requires duration <= |frames| as real * FrameStep(sampleRate)
    ensures contactTimes == ScanSpec(ZoneTrace(frames, width, zone), duration, sampleRate, sensitivity)
  {
    ghost var trace := ZoneTrace(frames, width, zone);
    var frameStep := FrameStep(sampleRate);
    contactTimes := [];
    var previous: Option<real> := None;
    var t := 0.0;
    var k := 0;
    assert duration <= SampleTime(|trace|, frameStep);
    while t < duration
      invariant k <= |trace|
      invariant t == SampleTime(k, frameStep)
      invariant SampleCount(duration, frameStep, k, |trace|) == SampleCount(duration, frameStep, 0, |trace|)
      invariant previous == if k == 0 then None else Some(trace[k - 1])
      invariant contactTimes == Detect(trace, frameStep, sensitivity, k)
      decreases |trace| - k
    {
      SampleInside(k, |trace|, frameStep, duration);
      var bright := AverageBrightness(frames[k], width, height, zone);
      assert bright == trace[k];
      DetectStep(trace, frameStep, sensitivity, k);
      if previous.Some? {
        var delta := Pacing.Abs(bright - previous.value);
        assert delta > sensitivity <==> Fires(trace, sensitivity, k);
        if delta > sensitivity {
          var last := Last(contactTimes);
          if Falsy(last) || t - last.value > MinGap {
            contactTimes := contactTimes + [t];
          }
        }
      }
      previous := Some(bright);
      NextSampleTime(k, frameStep);
      t := t + frameStep;
      k := k + 1;
    }
  }

  /**
    One more sample, in the terms the loop tests: the sample is recorded when it
    fires and `!last` holds or the last contact is more than 3.5 s back.
   */
  lemma DetectStep(bright: seq<real>, step: real, sensitivity: real, k: nat)
    requires k < |bright| && step > 0.0
    ensures var events, t := Detect(bright, step, sensitivity, k), SampleTime(k, step);
      Detect(bright, step, sensitivity, k + 1)
        == if Fires(bright, sensitivity, k) && (Falsy(Last(events)) || t - Last(events).value > MinGap)
           then events + [t] else events
  {
    FalsyLastIffNoContact(bright, step, sensitivity, k);
  }

  // ---------------------------------------------------------------------------
  // What the recorded contact times satisfy

  /** Consecutive contact times lie more than 3.5 s apart. */
  predicate Spaced(events: seq<real>) {
    forall i :: 1 <= i < |events| ==> events[i] - events[i - 1] > MinGap
  }

  predicate StrictlyIncreasing(events: seq<real>) {
    forall i, j :: 0 <= i < j < |events| ==> events[i] < events[j]
  }

  lemma {:induction false} DetectSpaced(bright: seq<real>, step: real, sensitivity: real, n: nat)
    requires n <= |bright|
    ensures Spaced(Detect(bright, step, sensitivity, n))
  {
    if n > 0 {
      DetectSpaced(bright, step, sensitivity, n - 1);
    }
  }

  lemma {:induction false} SpacedIncreasing(events: seq<real>)
    requires Spaced(events)
    ensures StrictlyIncreasing(events)
  {
    if |events| > 1 {
      var front := events[..|events| - 1];
      assert Spaced(front);
      SpacedIncreasing(front);
      forall i, j | 0 <= i < j < |events|
        ensures events[i] < events[j]
      {
        if j < |events| - 1 {
          assert front[i] < front[j];
        } else if i < j - 1 {
          assert front[i] < front[j - 1];
        }
      }
    }
  }

  /** t is the time of a firing sample taken before sample n. */
  predicate FiringTime(bright: seq<real>, sensitivity: real, step: real, n: nat, t: real) {
    exists k: nat :: k < n && Fires(bright, sensitivity, k) && t == SampleTime(k, step)
  }

  /** Every contact time is the time of a firing sample taken before sample n. */
  lemma {:induction false} DetectRecordsFirings(bright: seq<real>, step: real, sensitivity: real, n: nat)
    requires n <= |bright|
    ensures forall i :: 0 <= i < |Detect(bright, step, sensitivity, n)| ==>
      FiringTime(bright, sensitivity, step, n, Detect(bright, step, sensitivity, n)[i])
  {
    if n > 0 {
      DetectRecordsFirings(bright, step, sensitivity, n - 1);
      var earlier := Detect(bright, step, sensitivity, n - 1);
      var events := Detect(bright, step, sensitivity, n);
      forall i | 0 <= i < |events|
        ensures FiringTime(bright, sensitivity, step, n, events[i])
      {
        if i < |earlier| {
          assert events[i] == earlier[i];
          assert FiringTime(bright, sensitivity, step, n - 1, earlier[i]);
          var k: nat :| k < n - 1 && Fires(bright, sensitivity, k) && earlier[i] == SampleTime(k, step);
        } else {
          assert events[i] == SampleTime(n - 1, step) && Fires(bright, sensitivity, n - 1);
        }
      }
    }
  }

  /** The first sample never fires, so every contact time is positive. */
  lemma DetectPositive(bright: seq<real>, step: real, sensitivity: real, n: nat)
    requires n <= |bright| && step > 0.0
    ensures Pacing.AllPositive(Detect(bright, step, sensitivity, n))
  {
    var events := Detect(bright, step, sensitivity, n);
    DetectRecordsFirings(bright, step, sensitivity, n);
    forall i | 0 <= i < |events|
      ensures events[i] > 0.0
    {
      assert FiringTime(bright, sensitivity, step, n, events[i]);
      var k: nat :| k < n && Fires(bright, sensitivity, k) && events[i] == SampleTime(k, step);
      SampleTimeMonotone(0, k, step);
    }
  }

  /** `!last` holds exactly when no contact has been recorded yet. */
  lemma FalsyLastIffNoContact(bright: seq<real>, step: real, sensitivity: real, n: nat)
    requires n <= |bright| && step > 0.0
    ensures Falsy(Last(Detect(bright, step, sensitivity, n))) <==> |Detect(bright, step, sensitivity, n)| == 0
  {
    DetectPositive(bright, step, sensitivity, n);
  }

  /** Every contact time lies before the time of sample n. */
  lemma DetectBefore(bright: seq<real>, step: real, sensitivity: real, n: nat)
    requires n <= |bright| && step > 0.0
    ensures forall i :: 0 <= i < |Detect(bright, step, sensitivity, n)| ==>
      Detect(bright, step, sensitivity, n)[i] < SampleTime(n, step)
  {
    var events := Detect(bright, step, sensitivity, n);
    DetectRecordsFirings(bright, step, sensitivity, n);
    forall i | 0 <= i < |events|
      ensures events[i] < SampleTime(n, step)
    {
      assert FiringTime(bright, sensitivity, step, n, events[i]);
      var k: nat :| k < n && Fires(bright, sensitivity, k) && events[i] == SampleTime(k, step);
      SampleTimeMonotone(k, n, step);
    }
  }

  /**
    Nothing that fires is lost without reason: a firing sample before sample n is
    either recorded or falls within 3.5 s after an earlier contact.
   */
  lemma {:induction false} DetectComplete(bright: seq<real>, step: real, sensitivity: real, n: nat, k: nat)
    requires n <= |bright| && step > 0.0
    requires k < n && Fires(bright, sensitivity, k)
    ensures var events := Detect(bright, step, sensitivity, n);
      SampleTime(k, step) in events ||
      exists i :: 0 <= i < |events| && events[i] < SampleTime(k, step) && SampleTime(k, step) - events[i] <= MinGap
  {
    var events := Detect(bright, step, sensitivity, n);
    var earlier := Detect(bright, step, sensitivity, n - 1);
    assert earlier <= events;
    if k < n - 1 {
      DetectComplete(bright, step, sensitivity, n - 1, k);
      if SampleTime(k, step) !in earlier {
        var i :| 0 <= i < |earlier| && earlier[i] < SampleTime(k, step) && SampleTime(k, step) - earlier[i] <= MinGap;
        assert events[i] == earlier[i];
      }
    } else if SampleTime(k, step) !in events {
      assert events == earlier && |earlier| > 0;
      DetectBefore(bright, step, sensitivity, n - 1);
      var i := |earlier| - 1;
      assert earlier[i] < SampleTime(k, step);
    }
  }

  /** The scan's contact times are spaced, increasing and positive. */
  lemma ScanSpaced(bright: seq<real>, duration: real, sampleRate: real, sensitivity: real)
    ensures var events := ScanSpec(bright, duration, sampleRate, sensitivity);
      Spaced(events) && StrictlyIncreasing(events) && Pacing.AllPositive(events)
  {
    var step := FrameStep(sampleRate);
    var n := SampleCount(duration, step, 0, |bright|);
    DetectSpaced(bright, step, sensitivity, n);
    SpacedIncreasing(Detect(bright, step, sensitivity, n));
    DetectPositive(bright, step, sensitivity, n);
  }

  // ---------------------------------------------------------------------------
  // From contact times to splits

  /** The gaps between consecutive contact times, in order. */
  function Differences(events: seq<real>): (splits: seq<real>)
    ensures |splits| == if |events| == 0 then 0 else |events| - 1
  {
    if |events| < 2 then []
    else Differences(events[..|events| - 1]) + [events[|events| - 1] - events[|events| - 2]]
  }

  /** The split loop of `analyzeVideo`: one push per pair of consecutive contact times. */
  method DeriveSplits(contactTimes: seq<real>) returns (splits: seq<real>)
    ensures splits == Differences(contactTimes)
  {
    splits := [];
    if |contactTimes| == 0 {
      return;
    }
    var i := 1;
    while i < |contactTimes|
      invariant 1 <= i <= |contactTimes|
      invariant splits == Differences(contactTimes[..i])
    {
      assert contactTimes[..i + 1][..i] == contactTimes[..i];
      splits := splits + [contactTimes[i] - contactTimes[i - 1]];
      i := i + 1;
    }
    assert contactTimes[..i] == contactTimes;
  }

  /** Split i is the time from contact i to contact i + 1. */
  lemma {:induction false} DifferencesAt(events: seq<real>)
    ensures var splits := Differences(events);
      forall i :: 0 <= i < |splits| ==> splits[i] == events[i + 1] - events[i]
  {
    if |events| >= 2 {
      var front := events[..|events| - 1];
      DifferencesAt(front);
    }
  }

  /** The contact times reached from a start time by adding the splits one by one. */
  function Accumulate(start: real, splits: seq<real>): (times: seq<real>)
    ensures |times| == |splits| + 1 && times[0] == start
  {
    if |splits| == 0 then [start]
    else
      var front := Accumulate(start, splits[..|splits| - 1]);
      front + [front[|front| - 1] + splits[|splits| - 1]]
  }

  /** Adding the splits back onto the first contact time gives back every contact time. */
  lemma {:induction false} AccumulateDifferences(events: seq<real>)
    requires |events| >= 1
    ensures Accumulate(events[0], Differences(events)) == events
  {
    if |events| >= 2 {
      var n := |events|;
      var front := events[..n - 1];
      var splits := Differences(events);
      assert splits == Differences(front) + [events[n - 1] - events[n - 2]];
      assert splits[..|splits| - 1] == Differences(front);
      var acc := Accumulate(events[0], Differences(front));
      assert acc == front by {
        assert front[0] == events[0];
        AccumulateDifferences(front);
      }
      assert Accumulate(events[0], splits) == acc + [events[n - 2] + (events[n - 1] - events[n - 2])];
      assert events == front + [events[n - 1]];
    }
  }

  /** Spaced contact times give splits longer than 3.5 s, so all of them are positive. */
  lemma SpacedSplitsLong(events: seq<real>)
    requires Spaced(events)
    ensures forall i :: 0 <= i < |Differences(events)| ==> Differences(events)[i] > MinGap
  {
    DifferencesAt(events);
  }

  /** Every split between two contacts of a scan is longer than the minimum gap, so positive. */
  lemma ScanSplitsLong(bright: seq<real>, duration: real, sampleRate: real, sensitivity: real)
    ensures var splits := Differences(ScanSpec(bright, duration, sampleRate, sensitivity));
      forall i :: 0 <= i < |splits| ==> splits[i] > MinGap
  {
    ScanSpaced(bright, duration, sampleRate, sensitivity);
    SpacedSplitsLong(ScanSpec(bright, duration, sampleRate, sensitivity));
  }

  // ---------------------------------------------------------------------------
  // Three isolated spikes

  /**
    A trace that is `base` everywhere except at samples i < j < l, each of which
    lies more than `sensitivity` away from `base`.
   */
  predicate ThreeSpikes(bright: seq<real>, base: real, sensitivity: real, i: nat, j: nat, l: nat) {
    && 1 <= i < j < l < |bright|
    && (forall k :: 0 <= k < |bright| && k != i && k != j && k != l ==> bright[k] == base)
    && Pacing.Abs(bright[i] - base) > sensitivity
    && Pacing.Abs(bright[j] - base) > sensitivity
    && Pacing.Abs(bright[l] - base) > sensitivity
  }

  /** The times of those of the spikes i, j, l taken before sample m. */
  function SpikesBefore(i: nat, j: nat, l: nat, step: real, m: nat): seq<real> {
    (if i < m then [SampleTime(i, step)] else []) +
    (if j < m then [SampleTime(j, step)] else []) +
    (if l < m then [SampleTime(l, step)] else [])
  }

  /** A spike fires on its way up and again on its way down, one sample later. */
  lemma SpikeFires(bright: seq<real>, base: real, sensitivity: real, i: nat, j: nat, l: nat, k: nat)
    requires ThreeSpikes(bright, base, sensitivity, i, j, l) && sensitivity >= 0.0
    requires j > i + 1 && l > j + 1
    requires k < |bright|
    ensures Fires(bright, sensitivity, k) <==> k in {i, i + 1, j, j + 1, l, l + 1}
  {
  }

  lemma {:induction false} ThreeSpikesPrefix(bright: seq<real>, step: real, base: real, sensitivity: real,
                                             i: nat, j: nat, l: nat, m: nat)
    requires ThreeSpikes(bright, base, sensitivity, i, j, l) && sensitivity >= 0.0
    requires 0.0 < step <= MinGap
    requires SampleTime(j, step) - SampleTime(i, step) > MinGap
    requires SampleTime(l, step) - SampleTime(j, step) > MinGap
    requires m <= |bright|
    ensures Detect(bright, step, sensitivity, m) == SpikesBefore(i, j, l, step, m)
  {
    if m > 0 {
      var k := m - 1;
      ThreeSpikesPrefix(bright, step, base, sensitivity, i, j, l, k);
      NextSampleTime(i, step);
      NextSampleTime(j, step);
      NextSampleTime(l, step);
      SpikeFires(bright, base, sensitivity, i, j, l, k);
      if k == i + 1 || k == j + 1 || k == l + 1 {
        NextSampleTime(k - 1, step);
      }
    }
  }

  /**
    A trace that is constant but for three one-sample spikes, sampled with a step
    of at most 3.5 s and with the spikes more than 3.5 s apart, yields exactly the
    three spike times: the falling edge one sample after each spike fires too, but
    lies within 3.5 s of the contact just recorded. The splits are the two gaps.
   */
  lemma ThreeSpikesDetected(bright: seq<real>, step: real, base: real, sensitivity: real,
                            i: nat, j: nat, l: nat, n: nat)
    requires ThreeSpikes(bright, base, sensitivity, i, j, l) && sensitivity >= 0.0
    requires 0.0 < step <= MinGap
    requires SampleTime(j, step) - SampleTime(i, step) > MinGap
    requires SampleTime(l, step) - SampleTime(j, step) > MinGap
    requires l < n <= |bright|
    ensures Detect(bright, step, sensitivity, n) == [SampleTime(i, step), SampleTime(j, step), SampleTime(l, step)]
    ensures Differences(Detect(bright, step, sensitivity, n))
      == [SampleTime(j, step) - SampleTime(i, step), SampleTime(l, step) - SampleTime(j, step)]
  {
    ThreeSpikesPrefix(bright, step, base, sensitivity, i, j, l, n);
    var events := Detect(bright, step, sensitivity, n);
    DifferencesAt(events);
  }

  /**
    Sampling at 5 Hz for 90 s a trace that is constant but for spikes at 10 s,
    45 s and 80 s (samples 50, 225 and 400) gives the contacts 10, 45 and 80 and
    the splits 35 and 35.
   */
  lemma SpikesAtTenFortyFiveEighty(bright: seq<real>, base: real, sensitivity: real)
    requires |bright| >= 450 && sensitivity >= 0.0
    requires ThreeSpikes(bright, base, sensitivity, 50, 225, 400)
    ensures ScanSpec(bright, 90.0, 5.0, sensitivity) == [10.0, 45.0, 80.0]
    ensures Differences(ScanSpec(bright, 90.0, 5.0, sensitivity)) == [35.0, 35.0]
  {
    var step := FrameStep(5.0);
    assert step == 0.2;
    var n := SampleCount(90.0, step, 0, |bright|);
    assert n == 450 by {
      assert SampleTime(449, step) < 90.0 <= SampleTime(450, step);
    }
    ThreeSpikesDetected(bright, step, base, sensitivity, 50, 225, 400, n);
  }
}
