/**
 The adaptive peak-detection heart-rate estimator of the firmware. One sample
 is taken at most every 20 ms; running peak and trough bounds give a threshold
 at 60% of the observed range; a debounced rising edge through it is a beat;
 the time between two beats, when it lies strictly between 300 ms and 2000 ms,
 goes into a ten-slot circular buffer, and the beat rate is 60000 divided by
 the mean of the stored intervals. Every five seconds the bounds are re-seeded
 around the sensor's nominal midpoint 512.

 State is the value of every variable the estimator keeps between calls; Step
 is one call, and Estimator is the object whose fields are those variables.
 */
module HeartRate {
  import opened IntervalBuffer

  const SampleIntervalMs: nat := 20
  const DecayIntervalMs: nat := 5000
  const Midpoint: int := 512
  const MaxSample: int := 1023

  datatype State = State(
    // the function-level statics of the estimator
    lastSampleTime: nat,
    lastSignalValue: int,
    rising: bool,
    lastResetTime: nat,
    // the globals
    lastBeatTime: nat,
    beatInterval: nat,
    beatsPerMinute: int,
    beatDetected: bool,
    signalValue: int,
    peakValue: int,
    troughValue: int,
    pulseDetected: bool,
    // beatIntervals, beatIndex and beatArrayFilled
    buffer: Ring)

  /** The values before the first call: peak 0, trough 1024, buffer zeroed. */
  const Initial: State := State(0, 0, false, 0, 0, 0, 0, false, 0, 0, MaxSample + 1, false, Empty)

  function Max(a: int, b: int): int { if a > b then a else b }
  function Min(a: int, b: int): int { if a < b then a else b }

  /**
   The dynamic threshold, 60% of the way from trough to peak, rounded down.
   The source multiplies the range by the double 0.6; for a range of 0..1024
   that product rounds to the same integer as (peak - trough) * 6 / 10.
   */
  function Threshold(peak: int, trough: int): (t: int)
    requires trough <= peak
    ensures trough <= t <= peak
    ensures 10 * (t - trough) <= 6 * (peak - trough) < 10 * (t - trough + 1)
    ensures t == peak <==> peak == trough
  {
    trough + (peak - trough) * 6 / 10
  }

  lemma MulMonotone(x: int, y: int, n: int)
    requires x <= y && 0 <= n
    ensures x * n <= y * n
  {
    assert y * n - x * n == (y - x) * n;
  }

  /** Euclidean division by a positive n is at least k when k * n fits below the dividend ... */
  lemma DivAtLeast(a: int, n: int, k: int)
    requires 0 < n && k * n <= a
    ensures k <= a / n
  {
    var q, r := a / n, a % n;
    assert a == q * n + r && r < n;
    if q < k {
      MulMonotone(q + 1, k, n);
      assert false;
    }
  }

  /** ... and at most k when the dividend is below (k + 1) * n. */
  lemma DivAtMost(a: int, n: int, k: int)
    requires 0 < n && a < (k + 1) * n
    ensures a / n <= k
  {
    var q, r := a / n, a % n;
    assert a == q * n + r && 0 <= r;
    if q > k {
      MulMonotone(k + 1, q, n);
      assert false;
    }
  }

  /** The mean of the stored intervals, which is always a valid interval itself. */
  lemma MeanBounds(w: seq<int>)
    requires 0 < |w| <= BeatWindow && AllValid(w)
    ensures 301 <= Sum(w) / |w| <= 1999
  {
    SumBounds(w);
    DivAtLeast(Sum(w), |w|, 301);
    DivAtMost(Sum(w), |w|, 1999);
  }

  /** The beat rate of a set of stored intervals: 60000 / their mean, between 30 and 199. */
  function AverageBpm(w: seq<int>): (bpm: int)
    requires 0 < |w| <= BeatWindow && AllValid(w)
    ensures 30 <= bpm <= 199
  {
    MeanBounds(w);
    var mean := Sum(w) / |w|;
    DivisionBounds(mean);
    60000 / mean
  }

  lemma DivisionBounds(mean: int)
    requires 301 <= mean <= 1999
    ensures 30 <= 60000 / mean <= 199
  {
    DivAtLeast(60000, mean, 30);
    DivAtMost(60000, mean, 199);
  }

  /** What the estimator keeps true between calls. */
  ghost predicate ValidState(s: State) {
    && s.buffer.Valid()
    && 0 <= s.signalValue <= MaxSample
    && 0 <= s.lastSignalValue <= MaxSample
    && 0 <= s.peakValue <= MaxSample
    && 0 <= s.troughValue <= MaxSample + 1
    && s.lastBeatTime <= s.lastSampleTime
    && s.lastResetTime <= s.lastSampleTime
    && (s.pulseDetected <==> s.buffer.Count() > 0)
    && (s.pulseDetected ==> s.beatsPerMinute == AverageBpm(s.buffer.slots[..s.buffer.Count()]))
    && (!s.pulseDetected ==> s.beatsPerMinute == 0)
  }

  /** Whether a call at time now takes a sample: 20 ms since the last one. */
  predicate Sampled(s: State, now: nat) {
    now - s.lastSampleTime >= SampleIntervalMs
  }

  /** The sample is recorded and the bounds are widened to include it. */
  function TakeSample(s: State, now: nat, sample: int): (r: State)
    ensures r.troughValue <= sample <= r.peakValue
    ensures r.peakValue >= s.peakValue && r.troughValue <= s.troughValue
    ensures r.peakValue == s.peakValue || r.peakValue == sample
    ensures r.troughValue == s.troughValue || r.troughValue == sample
  {
    s.(lastSampleTime := now, signalValue := sample,
       peakValue := if sample > s.peakValue then sample else s.peakValue,
       troughValue := if sample < s.troughValue then sample else s.troughValue)
  }

  /** The threshold of the call at time now with this sample. */
  function ThresholdAt(s: State, now: nat, sample: int): int {
    var w := TakeSample(s, now, sample);
    Threshold(w.peakValue, w.troughValue)
  }

  /** The debounced rising edge: above the threshold now, at or below it before, not already counted. */
  predicate IsRisingEdge(signal: int, lastSignal: int, threshold: int, rising: bool) {
    signal > threshold && lastSignal <= threshold && !rising
  }

  /** Whether the call at time now with this sample detects a beat. */
  predicate Fires(s: State, now: nat, sample: int) {
    Sampled(s, now) && IsRisingEdge(sample, s.lastSignalValue, ThresholdAt(s, now, sample), s.rising)
  }

  /** Whether that beat also yields an interval that enters the buffer. */
  predicate Accepts(s: State, now: nat, sample: int) {
    Fires(s, now, sample) && s.lastBeatTime > 0 && ValidInterval(now - s.lastBeatTime)
  }

  /** The rate recomputed from the populated slots, and the pulse marked as detected. */
  function Recomputed(s: State): (r: State)
    requires s.buffer.Valid() && s.buffer.Count() > 0
    ensures 30 <= r.beatsPerMinute <= 199 && r.pulseDetected
  {
    s.(beatsPerMinute := AverageBpm(s.buffer.slots[..s.buffer.Count()]), pulseDetected := true)
  }

  /** An interval between two beats: kept only when plausible, and then the rate is recomputed. */
  function RecordInterval(s: State, interval: nat): (r: State)
    requires s.buffer.Valid()
    ensures r.buffer.Valid() && r.beatInterval == interval
    ensures !ValidInterval(interval) ==>
              r.buffer == s.buffer && r.beatsPerMinute == s.beatsPerMinute && r.pulseDetected == s.pulseDetected
    ensures ValidInterval(interval) ==>
              r.buffer == s.buffer.Push(interval) && r.pulseDetected && 30 <= r.beatsPerMinute <= 199
  {
    var s1 := s.(beatInterval := interval);
    if ValidInterval(interval) then
      PushValid(s.buffer, interval);
      var s2 := s1.(buffer := s.buffer.Push(interval));
      if s2.buffer.Count() > 0 then Recomputed(s2) else s2
    else
      s1
  }

  /** A detected beat: mark it counted, measure the interval when there was an earlier beat. */
  function OnBeat(s: State, now: nat): (r: State)
    requires s.buffer.Valid() && s.lastBeatTime <= now
    ensures r.buffer.Valid() && r.rising && r.beatDetected && r.lastBeatTime == now
    ensures s.lastBeatTime == 0 ==> r.buffer == s.buffer && r.beatInterval == s.beatInterval
  {
    var s1 := s.(rising := true, beatDetected := true);
    var s2 := if s.lastBeatTime > 0 then RecordInterval(s1, now - s.lastBeatTime) else s1;
    s2.(lastBeatTime := now)
  }

  /** The falling reset of rising, and the sample kept as the previous one. */
  function Settled(s: State, threshold: int): (r: State)
    ensures r.rising <==> s.rising && s.signalValue > threshold
    ensures r.lastSignalValue == s.signalValue
    ensures r.(rising := s.rising, lastSignalValue := s.lastSignalValue) == s
  {
    s.(rising := if s.signalValue <= threshold then false else s.rising,
       lastSignalValue := s.signalValue)
  }

  /** More than five seconds since the last re-seeding: bounds around the midpoint. */
  function Decayed(s: State, now: nat): (r: State)
    ensures now - s.lastResetTime > DecayIntervalMs ==>
              && r.troughValue <= r.signalValue <= r.peakValue
              && r.troughValue <= Midpoint <= r.peakValue
              && multiset{r.peakValue, r.troughValue} == multiset{r.signalValue, Midpoint}
              && r.lastResetTime == now
    ensures now - s.lastResetTime <= DecayIntervalMs ==> r == s
    ensures r.(peakValue := s.peakValue, troughValue := s.troughValue, lastResetTime := s.lastResetTime) == s
  {
    if now - s.lastResetTime > DecayIntervalMs then
      s.(peakValue := Max(s.signalValue, Midpoint), troughValue := Min(s.signalValue, Midpoint),
         lastResetTime := now)
    else
      s
  }

  /** One call of the estimator at time now, when the sensor reads sample. */
  function Step(s: State, now: nat, sample: int): (r: State)
    requires ValidState(s) && s.lastSampleTime <= now
    ensures r.buffer.Valid()
    ensures !Sampled(s, now) ==> r == s
    ensures Sampled(s, now) ==> r.lastSampleTime == now && r.signalValue == sample && r.lastSignalValue == sample
  {
    if !Sampled(s, now) then s
    else
      var s1 := TakeSample(s, now, sample);
      var threshold := ThresholdAt(s, now, sample);
      var s2 := if IsRisingEdge(s1.signalValue, s1.lastSignalValue, threshold, s1.rising)
                then OnBeat(s1, now) else s1;
      Decayed(Settled(s2, threshold), now)
  }

  /**
   Between two re-seedings the bounds only widen, and they contain the sample;
   a re-seeding, more than 5000 ms after the last, sets them around the midpoint.
   */
  lemma StepBounds(s: State, now: nat, sample: int)
    requires ValidState(s) && s.lastSampleTime <= now && Sampled(s, now)
    ensures var r := Step(s, now, sample);
            if now - s.lastResetTime <= DecayIntervalMs then
              && r.peakValue >= s.peakValue && r.troughValue <= s.troughValue
              && r.troughValue <= sample <= r.peakValue && r.lastResetTime == s.lastResetTime
            else
              r.peakValue == Max(sample, Midpoint) && r.troughValue == Min(sample, Midpoint) && r.lastResetTime == now
  {
  }

  /**
   A beat needs a non-degenerate range and a crossing from at or below the
   threshold; it sets rising, which only a sample at or below the threshold clears.
   The beat time is updated on every beat, whether or not its interval is kept.
   */
  lemma StepEdge(s: State, now: nat, sample: int)
    requires ValidState(s) && s.lastSampleTime <= now
    ensures var r := Step(s, now, sample);
            && (Fires(s, now, sample) ==>
                 var w := TakeSample(s, now, sample);
                 && w.troughValue <= ThresholdAt(s, now, sample) < sample <= w.peakValue
                 && w.troughValue < w.peakValue
                 && r.rising && r.beatDetected)
            && (Sampled(s, now) && !Fires(s, now, sample) ==>
                 r.rising == (s.rising && sample > ThresholdAt(s, now, sample)) && r.beatDetected == s.beatDetected)
            && r.lastBeatTime == if Fires(s, now, sample) then now else s.lastBeatTime
  {
  }

  /**
   Only an accepted interval touches the buffer, the rate and the detection
   flag; it is written at the cursor and the rate is recomputed from the
   populated slots. Detection and the wrap of the buffer are permanent.
   */
  lemma StepBuffer(s: State, now: nat, sample: int)
    requires ValidState(s) && s.lastSampleTime <= now
    ensures var r := Step(s, now, sample);
            && (!Accepts(s, now, sample) ==>
                 r.buffer == s.buffer && r.beatsPerMinute == s.beatsPerMinute && r.pulseDetected == s.pulseDetected)
            && (Accepts(s, now, sample) ==>
                 && r.buffer == s.buffer.Push(now - s.lastBeatTime)
                 && r.pulseDetected && r.beatInterval == now - s.lastBeatTime
                 && 0 < r.buffer.Count()
                 && r.beatsPerMinute == AverageBpm(r.buffer.slots[..r.buffer.Count()]))
            && (s.pulseDetected ==> r.pulseDetected)
            && (s.buffer.filled ==> r.buffer.filled)
  {
    if Accepts(s, now, sample) {
      StepAccepted(s, now, sample);
    } else {
      StepRejected(s, now, sample);
    }
  }

  /** A call that does not accept an interval leaves the buffer, the rate and the flag alone. */
  lemma StepRejected(s: State, now: nat, sample: int)
    requires ValidState(s) && s.lastSampleTime <= now && !Accepts(s, now, sample)
    ensures var r := Step(s, now, sample);
            r.buffer == s.buffer && r.beatsPerMinute == s.beatsPerMinute && r.pulseDetected == s.pulseDetected
  {
    if Sampled(s, now) {
      StepUnfold(s, now, sample);
      var s1 := TakeSample(s, now, sample);
      if Fires(s, now, sample) {
        var s2 := OnBeat(s1, now);
        assert s2.buffer == s.buffer && s2.beatsPerMinute == s.beatsPerMinute;
      }
    }
  }

  /** An accepted interval is stored at the cursor and the rate recomputed from the populated slots. */
  lemma StepAccepted(s: State, now: nat, sample: int)
    requires ValidState(s) && s.lastSampleTime <= now && Accepts(s, now, sample)
    ensures var r := Step(s, now, sample);
            && r.buffer == s.buffer.Push(now - s.lastBeatTime)
            && r.pulseDetected && r.beatInterval == now - s.lastBeatTime
            && 0 < r.buffer.Count()
            && r.beatsPerMinute == AverageBpm(r.buffer.slots[..r.buffer.Count()])
  {
    StepUnfold(s, now, sample);
    var s2 := OnBeat(TakeSample(s, now, sample), now);
    assert s2.buffer == Step(s, now, sample).buffer;
  }

  /** A sampled call is the composition of its phases. */
  lemma StepUnfold(s: State, now: nat, sample: int)
    requires ValidState(s) && s.lastSampleTime <= now && Sampled(s, now)
    ensures var s1 := TakeSample(s, now, sample);
            && s1.buffer == s.buffer && s1.lastBeatTime == s.lastBeatTime
            && Step(s, now, sample) == Decayed(Settled(if Fires(s, now, sample) then OnBeat(s1, now) else s1,
                                                      ThresholdAt(s, now, sample)), now)
  {
  }

  /** What the estimator returns: the rate once a pulse is detected, 0 before. */
  function Output(s: State): (bpm: int)
    ensures bpm != 0 ==> s.pulseDetected && bpm == s.beatsPerMinute
    ensures s.pulseDetected ==> bpm == s.beatsPerMinute
  {
    if s.pulseDetected then s.beatsPerMinute else 0
  }

  lemma InitialIsValid()
    ensures ValidState(Initial) && Output(Initial) == 0 && !Initial.pulseDetected
  {
    EmptyIsValid();
  }

  /** Every call keeps the state valid. */
  lemma StepPreservesValid(s: State, now: nat, sample: int)
    requires ValidState(s) && s.lastSampleTime <= now && 0 <= sample <= MaxSample
    ensures ValidState(Step(s, now, sample))
    ensures Step(s, now, sample).lastSampleTime <= now
  {
    if Sampled(s, now) {
      var s1 := TakeSample(s, now, sample);
      var threshold := Threshold(s1.peakValue, s1.troughValue);
      assert ValidState(s1);
      var s2 := if IsRisingEdge(s1.signalValue, s1.lastSignalValue, threshold, s1.rising)
                then OnBeat(s1, now) else s1;
      OnBeatValid(s1, now);
      assert ValidState(s2) && s2.lastSampleTime == now;
      assert ValidState(Settled(s2, threshold));
      assert ValidState(Decayed(Settled(s2, threshold), now));
    }
  }

  lemma OnBeatValid(s: State, now: nat)
    requires ValidState(s) && s.lastSampleTime == now
    ensures ValidState(OnBeat(s, now)) && OnBeat(s, now).lastSampleTime == now
  {
    var s1 := s.(rising := true, beatDetected := true);
    if s.lastBeatTime > 0 {
      RecordIntervalValid(s1, now - s.lastBeatTime);
    }
  }

  lemma RecordIntervalValid(s: State, interval: nat)
    requires ValidState(s)
    ensures ValidState(RecordInterval(s, interval))
    ensures RecordInterval(s, interval).lastSampleTime == s.lastSampleTime
    ensures RecordInterval(s, interval).lastBeatTime == s.lastBeatTime
  {
    if ValidInterval(interval) {
      PushValid(s.buffer, interval);
    }
  }

  /**
   The returned value is 0 exactly while no pulse has been detected, and the
   rate afterwards, which is then between 30 and 199 beats per minute.
   */
  lemma OutputMeaning(s: State)
    requires ValidState(s)
    ensures Output(s) == s.beatsPerMinute
    ensures Output(s) == 0 <==> !s.pulseDetected
    ensures s.pulseDetected ==> 30 <= Output(s) <= 199
  {
  }

  /**
   An accepted interval enters the window of the ten most recent intervals,
   and the rate is 60000 over the mean of that window.
   */
  lemma AcceptedAverage(s: State, now: nat, sample: int)
    requires ValidState(s) && s.lastSampleTime <= now
    requires Accepts(s, now, sample)
    ensures var r := Step(s, now, sample);
            && r.buffer.Window() == LastN(s.buffer.Window() + [now - s.lastBeatTime], BeatWindow)
            && |r.buffer.Window()| > 0 && Sum(r.buffer.Window()) / |r.buffer.Window()| > 0
            && r.beatsPerMinute == 60000 / (Sum(r.buffer.Window()) / |r.buffer.Window()|)
  {
    StepBuffer(s, now, sample);
    var b, interval := Step(s, now, sample).buffer, now - s.lastBeatTime;
    assert b == s.buffer.Push(interval);
    PushWindow(s.buffer, interval);
    assert b.Window() == s.buffer.Push(interval).Window();
    WindowAverage(b);
  }

  /** With at least one interval stored, the rate is 60000 over the mean of the window. */
  lemma WindowAverage(b: Ring)
    requires b.Valid() && b.Count() > 0
    ensures |b.Window()| > 0 && Sum(b.Window()) / |b.Window()| > 0
    ensures AverageBpm(b.slots[..b.Count()]) == 60000 / (Sum(b.Window()) / |b.Window()|)
  {
    WindowOfPopulated(b);
    MeanBounds(b.slots[..b.Count()]);
  }

  /**
   The estimator's variables. The globals and the statics of the source become
   fields; the interval buffer stays a ten-element array written in place.
   */
  class Estimator {
    var lastSampleTime: nat
    var lastSignalValue: int
    var rising: bool
    var lastResetTime: nat
    var lastBeatTime: nat
    var beatInterval: nat
    var beatsPerMinute: int
    var beatDetected: bool
    var signalValue: int
    var peakValue: int
    var troughValue: int
    var pulseDetected: bool
    var beatIntervals: array<int>
    var beatIndex: nat
    var beatArrayFilled: bool

    /** The fields as a State value. */
    function Snapshot(): State
      reads this, beatIntervals
    {
      State(lastSampleTime, lastSignalValue, rising, lastResetTime,
            lastBeatTime, beatInterval, beatsPerMinute, beatDetected,
            signalValue, peakValue, troughValue, pulseDetected,
            Ring(beatIntervals[..], beatIndex, beatArrayFilled))
    }

    ghost predicate Valid()
      reads this, beatIntervals
    {
      beatIntervals.Length == BeatWindow && ValidState(Snapshot())
    }

    /** The initial values, with the interval buffer cleared slot by slot. */
    constructor ()
      ensures Valid() && fresh(beatIntervals)
      ensures Snapshot() == Initial
    {
      var intervals := new int[BeatWindow];
      for i := 0 to BeatWindow
        invariant forall j :: 0 <= j < i ==> intervals[j] == 0
      {
        intervals[i] := 0;
      }
      lastSampleTime, lastSignalValue, rising, lastResetTime := 0, 0, false, 0;
      lastBeatTime, beatInterval, beatsPerMinute, beatDetected := 0, 0, 0, false;
      signalValue, peakValue, troughValue, pulseDetected := 0, 0, MaxSample + 1, false;
      beatIntervals, beatIndex, beatArrayFilled := intervals, 0, false;
      new;
      assert beatIntervals[..] == Empty.slots;
      InitialIsValid();
    }

    /** The sample is recorded and the bounds widened to include it. */
    method Widen(now: nat, sample: int)
      modifies this
      ensures Snapshot() == TakeSample(old(Snapshot()), now, sample)
      ensures beatIntervals == old(beatIntervals)
    {
      lastSampleTime := now;
      signalValue := sample;
      if signalValue > peakValue { peakValue := signalValue; }
      if signalValue < troughValue { troughValue := signalValue; }
    }

    /** The interval is written at the cursor, which advances modulo ten and marks the wrap. */
    method StoreInterval(interval: nat)
      requires beatIntervals.Length == BeatWindow && Snapshot().buffer.Shaped()
      modifies this, beatIntervals
      ensures beatIntervals == old(beatIntervals)
      ensures beatIntervals[old(beatIndex)] == interval
      ensures forall i :: 0 <= i < BeatWindow && i != old(beatIndex) ==> beatIntervals[i] == old(beatIntervals[i])
      ensures Snapshot() == old(Snapshot()).(buffer := old(Snapshot()).buffer.Push(interval))
    {
      beatIntervals[beatIndex] := interval;
      beatIndex := (beatIndex + 1) % BeatWindow;
      if beatIndex == 0 { beatArrayFilled := true; }
    }

    /** The mean of the populated slots gives the rate, and the pulse is detected. */
    method RecomputeRate()
      requires beatIntervals.Length == BeatWindow && Snapshot().buffer.Valid()
      modifies this
      ensures beatIntervals == old(beatIntervals)
      ensures Snapshot() == if old(Snapshot()).buffer.Count() > 0 then Recomputed(old(Snapshot())) else old(Snapshot())
    {
      var count := if beatArrayFilled then BeatWindow else beatIndex;
      var sum := SumSlots(count);
      if count > 0 {
        MeanBounds(beatIntervals[..count]);
        var avgInterval := sum / count;
        beatsPerMinute := 60000 / avgInterval;
        pulseDetected := true;
      }
    }

    /** The interval since the previous beat, kept only when plausible. */
    method MeasureInterval(interval: nat)
      requires beatIntervals.Length == BeatWindow && Snapshot().buffer.Valid()
      modifies this, beatIntervals
      ensures beatIntervals == old(beatIntervals)
      ensures Snapshot() == RecordInterval(old(Snapshot()), interval)
    {
      ghost var s0 := Snapshot();
      beatInterval := interval;
      if beatInterval > 300 && beatInterval < 2000 {
        StoreInterval(beatInterval);
        PushValid(s0.buffer, interval);
        RecomputeRate();
      }
    }

    /** The sum of the first count slots of the interval buffer. */
    method SumSlots(count: nat) returns (sum: int)
      requires count <= beatIntervals.Length
      ensures sum == Sum(beatIntervals[..count])
    {
      sum := 0;
      for i := 0 to count
        invariant sum == Sum(beatIntervals[..i])
      {
        assert beatIntervals[..i + 1] == beatIntervals[..i] + [beatIntervals[i]];
        sum := sum + beatIntervals[i];
      }
    }

    /** A detected beat: counted, its interval measured when there was an earlier beat. */
    method CountBeat(now: nat)
      requires beatIntervals.Length == BeatWindow && Snapshot().buffer.Valid() && lastBeatTime <= now
      modifies this, beatIntervals
      ensures beatIntervals == old(beatIntervals)
      ensures Snapshot() == OnBeat(old(Snapshot()), now)
    {
      ghost var s0 := Snapshot();
      rising := true;
      beatDetected := true;
      ghost var s1 := Snapshot();
      assert s1 == s0.(rising := true, beatDetected := true);
      if lastBeatTime > 0 {
        MeasureInterval(now - lastBeatTime);
      }
      ghost var s2 := Snapshot();
      assert s2 == if s0.lastBeatTime > 0 then RecordInterval(s1, now - s0.lastBeatTime) else s1;
      lastBeatTime := now;
      assert Snapshot() == s2.(lastBeatTime := now);
    }

    /** Rising is cleared at or below the threshold; the sample becomes the previous one. */
    method Settle(threshold: int)
      modifies this
      ensures beatIntervals == old(beatIntervals)
      ensures Snapshot() == Settled(old(Snapshot()), threshold)
    {
      if signalValue <= threshold {
        rising := false;
      }
      lastSignalValue := signalValue;
    }

    /** The periodic re-seeding of the bounds around the midpoint. */
    method Decay(now: nat)
      modifies this
      ensures beatIntervals == old(beatIntervals)
      ensures Snapshot() == Decayed(old(Snapshot()), now)
    {
      if now - lastResetTime > DecayIntervalMs {
        peakValue := Max(signalValue, Midpoint);
        troughValue := Min(signalValue, Midpoint);
        lastResetTime := now;
      }
    }

    /** readHeartRate: one call at time now, with the sensor reading sample. */
    method Tick(now: nat, sample: int) returns (bpm: int)
      requires Valid() && lastSampleTime <= now && 0 <= sample <= MaxSample
      modifies this, beatIntervals
      ensures Valid() && beatIntervals == old(beatIntervals)
      ensures Snapshot() == Step(old(Snapshot()), now, sample)
      ensures bpm == Output(Snapshot())
    {
      ghost var s := Snapshot();
      if now - lastSampleTime >= SampleIntervalMs {
        Widen(now, sample);
        ghost var s1 := Snapshot();
        var dynamicThreshold := Threshold(peakValue, troughValue);
        if signalValue > dynamicThreshold && lastSignalValue <= dynamicThreshold && !rising {
          CountBeat(now);
        }
        ghost var s2 := Snapshot();
        assert s2 == if IsRisingEdge(s1.signalValue, s1.lastSignalValue, dynamicThreshold, s1.rising)
                     then OnBeat(s1, now) else s1;
        Settle(dynamicThreshold);
        Decay(now);
      }
      assert Snapshot() == Step(s, now, sample);
      StepPreservesValid(s, now, sample);
      bpm := if pulseDetected then beatsPerMinute else 0;
    }
  }
}
