/**
 Properties of the estimator over a whole sequence of calls. A reading is the
 clock value and the sensor value one call sees; a trace is admissible when the
 clock never runs backwards and every sensor value is a 10-bit reading.
 */
module HeartRateTraces {
  import opened IntervalBuffer
  import opened HeartRate

  datatype Reading = Reading(now: nat, sample: int)

  /** The clock starts no earlier than t and never decreases; samples are in 0..1023. */
  predicate Admissible(t: nat, ticks: seq<Reading>)
    decreases |ticks|
  {
    ticks == [] ||
    (t <= ticks[0].now && 0 <= ticks[0].sample <= MaxSample && Admissible(ticks[0].now, ticks[1..]))
  }

  /** A call keeps the state valid and the rest of the trace admissible from its clock value. */
  lemma Advance(s: State, ticks: seq<Reading>)
    requires ValidState(s) && Admissible(s.lastSampleTime, ticks) && ticks != []
    ensures ValidState(Step(s, ticks[0].now, ticks[0].sample))
    ensures Admissible(Step(s, ticks[0].now, ticks[0].sample).lastSampleTime, ticks[1..])
  {
    StepPreservesValid(s, ticks[0].now, ticks[0].sample);
    var rest := ticks[1..];
    if rest != [] {
      assert Admissible(ticks[0].now, rest);
      assert ticks[0].now <= rest[0].now;
    }
  }

  /** The state after one call per reading, in order. */
  function Run(s: State, ticks: seq<Reading>): (r: State)
    requires ValidState(s) && Admissible(s.lastSampleTime, ticks)
    ensures ValidState(r)
    decreases |ticks|
  {
    if ticks == [] then s
    else
      var t := ticks[0];
      Advance(s, ticks);
      Run(Step(s, t.now, t.sample), ticks[1..])
  }

  /** How many of the calls detect a beat. */
  function Beats(s: State, ticks: seq<Reading>): nat
    requires ValidState(s) && Admissible(s.lastSampleTime, ticks)
    decreases |ticks|
  {
    if ticks == [] then 0
    else
      var t := ticks[0];
      Advance(s, ticks);
      (if Fires(s, t.now, t.sample) then 1 else 0) + Beats(Step(s, t.now, t.sample), ticks[1..])
  }

  /** The intervals the calls store in the buffer, in order. */
  function Accepted(s: State, ticks: seq<Reading>): seq<int>
    requires ValidState(s) && Admissible(s.lastSampleTime, ticks)
    decreases |ticks|
  {
    if ticks == [] then []
    else
      var t := ticks[0];
      Advance(s, ticks);
      (if Accepts(s, t.now, t.sample) then [t.now - s.lastBeatTime] else [])
        + Accepted(Step(s, t.now, t.sample), ticks[1..])
  }

  /** Every sampled call sees a value above its threshold. */
  predicate StaysAbove(s: State, ticks: seq<Reading>)
    requires ValidState(s) && Admissible(s.lastSampleTime, ticks)
    decreases |ticks|
  {
    ticks == [] ||
    var t := ticks[0];
    Advance(s, ticks);
    && (Sampled(s, t.now) ==> t.sample > ThresholdAt(s, t.now, t.sample))
    && StaysAbove(Step(s, t.now, t.sample), ticks[1..])
  }

  /** Every reading has the same sensor value c. */
  predicate Flat(ticks: seq<Reading>, c: int) {
    forall i :: 0 <= i < |ticks| ==> ticks[i].sample == c
  }

  /** All intervals ever accepted are valid. */
  lemma {:induction false} AcceptedAreValid(s: State, ticks: seq<Reading>)
    requires ValidState(s) && Admissible(s.lastSampleTime, ticks)
    ensures AllValid(Accepted(s, ticks))
    decreases |ticks|
  {
    if ticks != [] {
      var t := ticks[0];
      Advance(s, ticks);
      AcceptedAreValid(Step(s, t.now, t.sample), ticks[1..]);
    }
  }

  /** Two appends, each followed by a cut to the last ten, are one append and one cut. */
  lemma LastNCompose(w: seq<int>, a0: seq<int>, a1: seq<int>, w1: seq<int>, w2: seq<int>)
    requires w1 == LastN(w + a0, BeatWindow) && w2 == LastN(w1 + a1, BeatWindow)
    ensures w2 == LastN(w + (a0 + a1), BeatWindow)
  {
    LastNAppend(w + a0, a1, BeatWindow);
    assert w + a0 + a1 == w + (a0 + a1);
  }

  /**
   After any trace the buffer's window holds the ten most recent intervals:
   those it held before followed by every interval accepted along the way.
   */
  lemma {:induction false} RunWindow(s: State, ticks: seq<Reading>)
    requires ValidState(s) && Admissible(s.lastSampleTime, ticks)
    ensures Run(s, ticks).buffer.Window() == LastN(s.buffer.Window() + Accepted(s, ticks), BeatWindow)
    decreases |ticks|
  {
    var w := s.buffer.Window();
    if ticks == [] {
      WindowOfPopulated(s.buffer);
      assert w + [] == w;
    } else {
      var s1, a0 := Peel(s, ticks);
      RunWindow(s1, ticks[1..]);
      LastNCompose(w, a0, Accepted(s1, ticks[1..]), s1.buffer.Window(), Run(s1, ticks[1..]).buffer.Window());
    }
  }

  /**
   The first call of a nonempty trace: the state s1 it leaves, from which the
   rest is run, and the intervals a0 it appends to the window.
   */
  lemma Peel(s: State, ticks: seq<Reading>) returns (s1: State, a0: seq<int>)
    requires ValidState(s) && Admissible(s.lastSampleTime, ticks) && ticks != []
    ensures s1 == Step(s, ticks[0].now, ticks[0].sample)
    ensures ValidState(s1) && Admissible(s1.lastSampleTime, ticks[1..])
    ensures s1.buffer.Window() == LastN(s.buffer.Window() + a0, BeatWindow)
    ensures Run(s, ticks) == Run(s1, ticks[1..])
    ensures Accepted(s, ticks) == a0 + Accepted(s1, ticks[1..])
  {
    var t := ticks[0];
    Advance(s, ticks);
    s1 := Step(s, t.now, t.sample);
    a0 := StepWindow(s, t.now, t.sample);
    RunUnfold(s, ticks);
    AcceptedUnfold(s, ticks);
  }

  /** A nonempty trace runs its first call, then the rest from the state it leaves. */
  lemma RunUnfold(s: State, ticks: seq<Reading>)
    requires ValidState(s) && Admissible(s.lastSampleTime, ticks) && ticks != []
    ensures (Advance(s, ticks);
             Run(s, ticks) == Run(Step(s, ticks[0].now, ticks[0].sample), ticks[1..]))
  {
    Advance(s, ticks);
  }

  /** The intervals of a nonempty trace: the first call's, then those of the rest. */
  lemma AcceptedUnfold(s: State, ticks: seq<Reading>)
    requires ValidState(s) && Admissible(s.lastSampleTime, ticks) && ticks != []
    ensures (Advance(s, ticks);
             var t := ticks[0];
             Accepted(s, ticks)
               == (if Accepts(s, t.now, t.sample) then [t.now - s.lastBeatTime] else [])
                  + Accepted(Step(s, t.now, t.sample), ticks[1..]))
  {
    Advance(s, ticks);
  }

  /** One call appends the interval it accepts, if any, to the window. */
  lemma StepWindow(s: State, now: nat, sample: int) returns (a: seq<int>)
    requires ValidState(s) && s.lastSampleTime <= now
    ensures a == if Accepts(s, now, sample) then [now - s.lastBeatTime] else []
    ensures Step(s, now, sample).buffer.Window() == LastN(s.buffer.Window() + a, BeatWindow)
  {
    if Accepts(s, now, sample) {
      a := [now - s.lastBeatTime];
      AcceptedAverage(s, now, sample);
    } else {
      a := [];
      StepRejected(s, now, sample);
      WindowOfPopulated(s.buffer);
      assert s.buffer.Window() + a == s.buffer.Window();
    }
  }

  /**
   From power-on, a pulse is detected exactly when some interval has been
   accepted, and the value returned is then 60000 over the mean of the ten most
   recent accepted intervals; before that it is 0.
   */
  lemma FromPowerOn(ticks: seq<Reading>)
    requires Admissible(0, ticks)
    ensures (InitialIsValid();
             var r, w := Run(Initial, ticks), LastN(Accepted(Initial, ticks), BeatWindow);
             && (r.pulseDetected <==> Accepted(Initial, ticks) != [])
             && (!r.pulseDetected ==> Output(r) == 0)
             && (r.pulseDetected ==> |w| > 0 && Sum(w) / |w| > 0 && Output(r) == 60000 / (Sum(w) / |w|)))
  {
    InitialIsValid();
    EmptyIsValid();
    var r := Run(Initial, ticks);
    RunWindow(Initial, ticks);
    assert Initial.buffer.Window() + Accepted(Initial, ticks) == Accepted(Initial, ticks);
    WindowOfPopulated(r.buffer);
    if r.pulseDetected {
      WindowAverage(r.buffer);
    }
  }

  /** An interval is stored only on a beat, so calls without a beat store none. */
  lemma {:induction false} NoBeatNoAccept(s: State, ticks: seq<Reading>)
    requires ValidState(s) && Admissible(s.lastSampleTime, ticks)
    ensures Beats(s, ticks) == 0 ==> Accepted(s, ticks) == []
    decreases |ticks|
  {
    if ticks != [] {
      Advance(s, ticks);
      NoBeatNoAccept(Step(s, ticks[0].now, ticks[0].sample), ticks[1..]);
    }
  }

  /**
   With no beat recorded yet, the first beat only records its time: an interval
   needs a second beat.
   */
  lemma {:induction false} FirstBeatNoAccept(s: State, ticks: seq<Reading>)
    requires ValidState(s) && Admissible(s.lastSampleTime, ticks)
    requires s.lastBeatTime == 0
    ensures Beats(s, ticks) <= 1 ==> Accepted(s, ticks) == []
    decreases |ticks|
  {
    if ticks != [] {
      var t := ticks[0];
      Advance(s, ticks);
      StepEdge(s, t.now, t.sample);
      var s1 := Step(s, t.now, t.sample);
      if Fires(s, t.now, t.sample) {
        NoBeatNoAccept(s1, ticks[1..]);
      } else {
        FirstBeatNoAccept(s1, ticks[1..]);
      }
    }
  }

  /** From power-on, fewer than two beats store no interval, detect no pulse and report 0. */
  lemma ColdStart(ticks: seq<Reading>)
    requires Admissible(0, ticks)
    ensures (InitialIsValid(); Beats(Initial, ticks) < 2 ==>
             && Accepted(Initial, ticks) == []
             && !Run(Initial, ticks).pulseDetected && Output(Run(Initial, ticks)) == 0)
  {
    InitialIsValid();
    FirstBeatNoAccept(Initial, ticks);
    FromPowerOn(ticks);
  }

  /** Once a pulse is detected it stays detected, with a rate of 30 to 199. */
  lemma {:induction false} DetectionIsPermanent(s: State, ticks: seq<Reading>)
    requires ValidState(s) && Admissible(s.lastSampleTime, ticks) && s.pulseDetected
    ensures Run(s, ticks).pulseDetected && 30 <= Output(Run(s, ticks)) <= 199
    decreases |ticks|
  {
    if ticks == [] {
      OutputMeaning(s);
    } else {
      var t := ticks[0];
      Advance(s, ticks);
      StepBuffer(s, t.now, t.sample);
      DetectionIsPermanent(Step(s, t.now, t.sample), ticks[1..]);
    }
  }

  /**
   The debounce: while the signal stays above the threshold at most one beat is
   detected; none when a beat was already counted, one when the first call detects it.
   */
  lemma {:induction false} OneBeatPerExcursion(s: State, ticks: seq<Reading>)
    requires ValidState(s) && Admissible(s.lastSampleTime, ticks) && StaysAbove(s, ticks)
    ensures Beats(s, ticks) <= 1
    ensures s.rising ==> Beats(s, ticks) == 0
    ensures ticks != [] && Fires(s, ticks[0].now, ticks[0].sample) ==> Beats(s, ticks) == 1
    decreases |ticks|
  {
    if ticks != [] {
      var t := ticks[0];
      Advance(s, ticks);
      StepEdge(s, t.now, t.sample);
      var s1 := Step(s, t.now, t.sample);
      assert s.rising || Fires(s, t.now, t.sample) ==> s1.rising;
      OneBeatPerExcursion(s1, ticks[1..]);
    }
  }

  /** A flat signal that the estimator has already seen never produces a beat or changes the rate. */
  lemma {:induction false} FlatSignalNeverBeats(s: State, ticks: seq<Reading>, c: int)
    requires ValidState(s) && Admissible(s.lastSampleTime, ticks) && Flat(ticks, c)
    requires s.lastSignalValue == c
    ensures Beats(s, ticks) == 0
    ensures var r := Run(s, ticks);
            r.buffer == s.buffer && r.pulseDetected == s.pulseDetected && r.beatsPerMinute == s.beatsPerMinute
    decreases |ticks|
  {
    if ticks != [] {
      var t := ticks[0];
      Advance(s, ticks);
      StepRejected(s, t.now, t.sample);
      assert Flat(ticks[1..], c) by {
        forall i | 0 <= i < |ticks| - 1 ensures ticks[1..][i].sample == c {
          assert ticks[1..][i] == ticks[i + 1];
        }
      }
      FlatSignalNeverBeats(Step(s, t.now, t.sample), ticks[1..], c);
    }
  }

  /** Any flat signal produces at most one beat: only the first sampled call can see an edge. */
  lemma {:induction false} FlatSignalAtMostOneBeat(s: State, ticks: seq<Reading>, c: int)
    requires ValidState(s) && Admissible(s.lastSampleTime, ticks) && Flat(ticks, c)
    ensures Beats(s, ticks) <= 1
    decreases |ticks|
  {
    if ticks != [] {
      var t := ticks[0];
      Advance(s, ticks);
      var s1 := Step(s, t.now, t.sample);
      assert Flat(ticks[1..], c) by {
        forall i | 0 <= i < |ticks| - 1 ensures ticks[1..][i].sample == c {
          assert ticks[1..][i] == ticks[i + 1];
        }
      }
      if Sampled(s, t.now) {
        FlatSignalNeverBeats(s1, ticks[1..], c);
      } else {
        assert !Fires(s, t.now, t.sample);
        FlatSignalAtMostOneBeat(s1, ticks[1..], c);
      }
    }
  }

  /**
   A flat signal never produces a beat either while the bounds still enclose it:
   the first sample then collapses them onto it, so the threshold equals the
   signal and the signal cannot exceed it.
   */
  lemma {:induction false} FlatSignalInsideBounds(s: State, ticks: seq<Reading>, c: int)
    requires ValidState(s) && Admissible(s.lastSampleTime, ticks) && Flat(ticks, c)
    requires s.lastSignalValue == c || s.peakValue <= c <= s.troughValue
    ensures Beats(s, ticks) == 0
    ensures var r := Run(s, ticks);
            r.buffer == s.buffer && r.pulseDetected == s.pulseDetected && r.beatsPerMinute == s.beatsPerMinute
    decreases |ticks|
  {
    if s.lastSignalValue == c {
      FlatSignalNeverBeats(s, ticks, c);
    } else if ticks != [] {
      var t := ticks[0];
      Advance(s, ticks);
      var w := TakeSample(s, t.now, t.sample);
      assert w.peakValue == c && w.troughValue == c;
      assert !Fires(s, t.now, t.sample);
      StepRejected(s, t.now, t.sample);
      assert Flat(ticks[1..], c) by {
        forall i | 0 <= i < |ticks| - 1 ensures ticks[1..][i].sample == c {
          assert ticks[1..][i] == ticks[i + 1];
        }
      }
      FlatSignalInsideBounds(Step(s, t.now, t.sample), ticks[1..], c);
    }
  }

  /** From power-on, a flat signal never reports a pulse: the value returned stays 0. */
  lemma FlatFromPowerOn(ticks: seq<Reading>, c: int)
    requires Admissible(0, ticks) && Flat(ticks, c)
    ensures (InitialIsValid(); Beats(Initial, ticks) == 0)
    ensures (InitialIsValid(); !Run(Initial, ticks).pulseDetected && Output(Run(Initial, ticks)) == 0)
  {
    InitialIsValid();
    if ticks != [] {
      assert 0 <= ticks[0].sample <= MaxSample;
      FlatSignalInsideBounds(Initial, ticks, c);
    }
  }

  lemma {:induction false} SumConstant(w: seq<int>, d: int)
    requires forall i :: 0 <= i < |w| ==> w[i] == d
    ensures Sum(w) == |w| * d
  {
    if w != [] {
      SumConstant(w[..|w| - 1], d);
    }
  }

  /** A steady rhythm of d ms between beats reads 60000 / d beats per minute. */
  lemma SteadyRate(w: seq<int>, d: int)
    requires 0 < |w| <= BeatWindow && ValidInterval(d)
    requires forall i :: 0 <= i < |w| ==> w[i] == d
    ensures AllValid(w) && AverageBpm(w) == 60000 / d
  {
    SumConstant(w, d);
    DivAtLeast(Sum(w), |w|, d);
    assert (d + 1) * |w| == |w| * d + |w|;
    DivAtMost(Sum(w), |w|, d);
  }

  /**
   From power-on, when every accepted interval is d ms, the value returned is
   60000 / d as soon as the first one is accepted.
   */
  lemma SteadyRhythm(ticks: seq<Reading>, d: int)
    requires Admissible(0, ticks)
    requires (InitialIsValid();
              var a := Accepted(Initial, ticks);
              a != [] && forall i :: 0 <= i < |a| ==> a[i] == d)
    ensures ValidInterval(d)
    ensures (InitialIsValid(); Output(Run(Initial, ticks)) == 60000 / d)
  {
    InitialIsValid();
    var a := Accepted(Initial, ticks);
    FromPowerOn(ticks);
    AcceptedAreValid(Initial, ticks);
    assert ValidInterval(a[0]);
    var w := LastN(a, BeatWindow);
    assert forall i :: 0 <= i < |w| ==> w[i] == d by {
      forall i | 0 <= i < |w| ensures w[i] == d {
        assert w[i] == a[|a| - |w| + i];
      }
    }
    SteadyRate(w, d);
  }
}
