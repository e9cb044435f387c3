/** What the detectors do over whole runs of the super-loop. */
module EcuRuns {
  import opened UInt32
  import opened Wrappers
  import opened Sensors
  import AbsState
  import Diagnostic
  import opened Ecu

  // ---- from faults to the latch ----

  lemma LatchedAfterTenFaults(ticks: seq<Tick>, from: nat, k: nat)
    requires from + 10 <= k + 1 <= |ticks|
    requires forall j :: from <= j < from + 10 ==> AbsState.Faulty(InputAt(INITIAL, ticks, j))
    ensures OutputAt(INITIAL, ticks, k).status == FAULT_LATCHED
    ensures OutputAt(INITIAL, ticks, k).command == ticks[k].request
  {
    hide Cycle, OutputOf, InputOf;
    var run := ticks[..k + 1];
    var inputs := Inputs(INITIAL, run);
    forall j | from <= j < from + 10 ensures AbsState.Faulty(inputs[j]) {
      assert run[..j] == ticks[..j];
      assert inputs[j] == InputAt(INITIAL, ticks, j);
    }
    assert AbsState.TenFaultsAt(inputs, from);
    FsmOfRun(INITIAL, run);
    AbsState.LatchIsHistory(inputs);
    assert run[..k] == ticks[..k];
    LastOutput(Run(INITIAL, ticks[..k]), ticks[k]);
    CommandFollowsStatus(ticks, k);
  }

  lemma FaultyPassesPedal(e: State, t: Tick)
    requires AbsState.Faulty(InputOf(e, t))
    ensures OutputOf(e, t).status in {FAULT_DEGRADED, FAULT_LATCHED}
    ensures OutputOf(e, t).command == t.request
  {
  }

  // ---- loss of communication ----

  ghost predicate AllMissed(gap: seq<Tick>) {
    forall t <- gap :: t.read.None?
  }

  lemma {:induction false} MissedCount(e: State, gap: seq<Tick>)
    requires e.missed == 0 && AllMissed(gap)
    ensures Run(e, gap).missed == Wrap32(|gap|)
  {
    if gap != [] {
      var n := |gap| - 1;
      assert forall t <- gap[..n] :: t in gap;
      MissedCount(e, gap[..n]);
      WrapAdds(n, 1);
      assert gap[n] in gap;
    }
  }

  lemma TimeoutIffMissed(e: State, t: Tick)
    requires t.read.None?
    ensures CommTimeout in OutputOf(e, t).dtc <==> Wrap32(e.missed + 1) > 5
  {
  }

  lemma MissedBefore(before: seq<Tick>)
    requires before == [] || before[|before| - 1].read.Some?
    ensures Run(INITIAL, before).missed == 0
  {
  }

  /** In cycle `k` of a gap (counted from zero) the watchdog has fired iff the counter says so. */
  lemma TimeoutInGap(e: State, gap: seq<Tick>, k: nat)
    requires e.missed == 0 && AllMissed(gap) && k < |gap|
    ensures CommTimeout in OutputAt(e, gap, k).dtc <==> Wrap32(k + 1) > 5
  {
    assert forall t <- gap[..k] :: t in gap;
    MissedCount(e, gap[..k]);
    WrapAdds(k, 1);
    assert gap[k] in gap;
    TimeoutIffMissed(Run(e, gap[..k]), gap[k]);
  }

  function TimeoutCycles(e: State, gap: seq<Tick>): nat {
    if gap == [] then 0
    else
      var n := |gap| - 1;
      TimeoutCycles(e, gap[..n]) + if CommTimeout in OutputAt(e, gap, n).dtc then 1 else 0
  }

  /** A gap of g cycles raises the code exactly max(0, g - 5) times. */
  lemma {:induction false} TimeoutCount(e: State, gap: seq<Tick>)
    requires e.missed == 0 && AllMissed(gap) && |gap| < U32
    ensures TimeoutCycles(e, gap) == if |gap| <= 5 then 0 else |gap| - 5
  {
    hide OutputOf;
    if gap != [] {
      var n := |gap| - 1;
      assert forall t <- gap[..n] :: t in gap;
      TimeoutCount(e, gap[..n]);
      TimeoutInGap(e, gap, n);
      WrapSmall(n + 1);
    }
  }

  lemma DtcIsFault(e: State, ticks: seq<Tick>, k: nat, code: Dtc)
    requires k < |ticks| && code in OutputAt(e, ticks, k).dtc
    ensures AbsState.Faulty(InputAt(e, ticks, k))
  {
  }

  /**
   Whatever came before: from the sixth missed cycle on the pedal is passed through, and from
   the fifteenth on the ECU is latched, even when the counters have wrapped.
   */
  lemma CommunicationLoss(before: seq<Tick>, gap: seq<Tick>, k: nat)
    requires before == [] || before[|before| - 1].read.Some?
    requires AllMissed(gap) && k < |gap|
    ensures var o := OutputAt(INITIAL, before + gap, |before| + k);
            && (CommTimeout in o.dtc <==> Wrap32(k + 1) > 5)
            && (k >= 5 ==> o.command == gap[k].request)
            && (k >= 14 ==> o.status == FAULT_LATCHED)
  {
    hide OutputOf, InputOf, Cycle;
    var e := Run(INITIAL, before);
    MissedBefore(before);
    TimeoutInGap(e, gap, k);
    OutputConcat(INITIAL, before, gap, k);
    if 5 <= k < 14 {
      WrapSmall(k + 1);
      DtcIsFault(e, gap, k, CommTimeout);
      FaultyPassesPedal(Run(e, gap[..k]), gap[k]);
    } else if k >= 14 {
      forall j | |before| + 5 <= j < |before| + 15
        ensures AbsState.Faulty(InputAt(INITIAL, before + gap, j))
      {
        var i := j - |before|;
        TimeoutInGap(e, gap, i);
        WrapSmall(i + 1);
        DtcIsFault(e, gap, i, CommTimeout);
        OutputConcat(INITIAL, before, gap, i);
      }
      LatchedAfterTenFaults(before + gap, |before| + 5, |before| + k);
    }
  }

  /** After a gap of fifteen cycles the ECU stays latched for the rest of the run. */
  lemma LossLatchesForGood(before: seq<Tick>, gap: seq<Tick>, rest: seq<Tick>)
    requires before == [] || before[|before| - 1].read.Some?
    requires AllMissed(gap) && |gap| >= 15
    ensures Run(INITIAL, before + gap + rest).fsm.current == FAULT_LATCHED
  {
    hide OutputOf, InputOf, Cycle;
    var ticks := before + gap;
    var k := |gap| - 1;
    CommunicationLoss(before, gap, k);
    assert ticks[..|before| + k] == ticks[..|ticks| - 1];
    LastOutput(Run(INITIAL, ticks[..|ticks| - 1]), ticks[|ticks| - 1]);
    var e := Run(INITIAL, ticks);
    RunConcat(INITIAL, ticks, rest);
    FsmOfRun(e, rest);
    AbsState.LatchAbsorbs(e.fsm, Inputs(e, rest));
  }

  // ---- which sample a cycle works on ----

  /** The last sample that arrived in a run. */
  function LastRead(ticks: seq<Tick>): Sample {
    if ticks == [] then BLANK
    else
      match ticks[|ticks| - 1].read
      case Some(s) => s.(valid := true)
      case None => LastRead(ticks[..|ticks| - 1])
  }

  /** How many cycles at the end of a run brought no sample. */
  function TrailingMissed(ticks: seq<Tick>): nat {
    if ticks == [] || ticks[|ticks| - 1].read.Some? then 0
    else TrailingMissed(ticks[..|ticks| - 1]) + 1
  }

  lemma CycleReads(e: State, t: Tick)
    ensures var c, r := Cycle(e, t), Read(e, t);
            c.missed == r.missed && c.cur == r.cur && c.lastGood == r.lastGood
  {
  }

  lemma {:induction false} MissedIsHistory(ticks: seq<Tick>)
    ensures var e := Run(INITIAL, ticks);
            && e.missed == Wrap32(TrailingMissed(ticks))
            && e.lastGood == LastRead(ticks)
            && e.cur == if TrailingMissed(ticks) == 0 then LastRead(ticks)
                        else LastRead(ticks).(valid := false)
  {
    hide Cycle;
    if ticks != [] {
      MissedIsHistory(ticks[..|ticks| - 1]);
      CycleReads(Run(INITIAL, ticks[..|ticks| - 1]), ticks[|ticks| - 1]);
      WrapAdds(TrailingMissed(ticks[..|ticks| - 1]), 1);
    }
  }

  /**
   The sample of a cycle is the one that has just arrived, or the last one while the watchdog's
   product of missed cycles and period, which is 32 bits wide, is at most 50 ms; after that it is
   marked invalid. The product wraps, so after 429 496 730 missed cycles a stale sample returns.
   */
  lemma SampleIsHistory(ticks: seq<Tick>, k: nat)
    requires k < |ticks|
    ensures var run := ticks[..k + 1];
            InputAt(INITIAL, ticks, k).sample ==
            if TrailingMissed(run) == 0 || Wrap32(Wrap32(TrailingMissed(run)) * 10) <= 50
            then LastRead(run) else LastRead(run).(valid := false)
  {
    hide Cycle;
    var run := ticks[..k + 1];
    assert run[..k] == ticks[..k];
    MissedIsHistory(run);
    CycleReads(Run(INITIAL, ticks[..k]), ticks[k]);
  }

  lemma {:induction false} GapIsTrailing(before: seq<Tick>, gap: seq<Tick>)
    requires before != [] && before[|before| - 1].read.Some? && AllMissed(gap)
    ensures TrailingMissed(before + gap) == |gap| && LastRead(before + gap) == LastRead(before)
    decreases |gap|
  {
    if gap == [] {
      assert before + gap == before;
    } else {
      var n := |gap| - 1;
      assert gap[n] in gap;
      assert forall t <- gap[..n] :: t in gap;
      assert (before + gap)[..|before| + n] == before + gap[..n];
      GapIsTrailing(before, gap[..n]);
    }
  }

  /** In cycle `k` of a gap the last sample counts as valid exactly while the product is small. */
  lemma SampleInGap(before: seq<Tick>, gap: seq<Tick>, k: nat)
    requires before != [] && before[|before| - 1].read.Some? && AllMissed(gap) && k < |gap|
    ensures InputAt(INITIAL, before + gap, |before| + k).sample ==
            before[|before| - 1].read.value.(valid := Wrap32(Wrap32(k + 1) * 10) <= 50)
  {
    hide InputOf, Wrap32, Run;
    var run := before + gap;
    assert run[..|before| + k + 1] == before + gap[..k + 1];
    assert forall t <- gap[..k + 1] :: t in gap;
    GapIsTrailing(before, gap[..k + 1]);
    SampleIsHistory(run, |before| + k);
  }

  lemma ProductWraps()
    ensures Wrap32(Wrap32(429_496_729) * 10) > 50 && Wrap32(Wrap32(429_496_730) * 10) <= 50
  {
  }

  /**
   In the 429 496 730th cycle without a sample the last one, more than a month old, is taken for
   valid again; in the cycle before it was not.
   */
  lemma StaleSampleReturns(before: seq<Tick>, s: Sample, gap: seq<Tick>)
    requires before != [] && before[|before| - 1].read == Some(s)
    requires AllMissed(gap) && |gap| == 429_496_730
    ensures InputAt(INITIAL, before + gap, |before| + |gap| - 1).sample == s.(valid := true)
    ensures InputAt(INITIAL, before + gap, |before| + |gap| - 2).sample == s.(valid := false)
  {
    hide InputAt, Wrap32;
    ProductWraps();
    SampleInGap(before, gap, |gap| - 1);
    SampleInGap(before, gap, |gap| - 2);
  }

  // ---- a frozen wheel sensor ----

  /** The samples whose content a run has checked. */
  function AcceptedSamples(ticks: seq<Tick>): seq<Sample> {
    if ticks == [] then []
    else
      var n := |ticks| - 1;
      var s := ForState(Read(Run(INITIAL, ticks[..n]), ticks[n]));
      AcceptedSamples(ticks[..n]) + if Diagnostic.Accepted(s) then [s] else []
  }

  function OmegaBefore(samples: seq<Sample>): real {
    if samples == [] then 0.0 else samples[|samples| - 1].omega
  }

  function SpeedBefore(samples: seq<Sample>): real {
    if samples == [] then 0.0 else samples[|samples| - 1].v
  }

  /** The sample repeated the wheel speed of the one before it while the vehicle moved. */
  predicate Repeats(samples: seq<Sample>, k: nat)
    requires k < |samples|
  {
    samples[k].omega == OmegaBefore(samples[..k]) && samples[k].v > 1.0
  }

  /** How many samples at the end of a history repeated their predecessor. */
  function FrozenRun(samples: seq<Sample>): (n: nat)
    ensures n <= |samples|
  {
    if samples == [] || !Repeats(samples, |samples| - 1) then 0
    else FrozenRun(samples[..|samples| - 1]) + 1
  }

  lemma {:induction false} FrozenRunMeans(samples: seq<Sample>)
    ensures var n := FrozenRun(samples);
            && (forall k: nat :: |samples| - n <= k < |samples| ==> Repeats(samples, k))
            && (n < |samples| ==> !Repeats(samples, |samples| - n - 1))
  {
    if samples != [] && Repeats(samples, |samples| - 1) {
      var init := samples[..|samples| - 1];
      FrozenRunMeans(init);
      forall k: nat | k < |init| ensures Repeats(samples, k) == Repeats(init, k) {
        assert init[..k] == samples[..k];
      }
    }
  }

  lemma CheckCounts(e: State, t: Tick)
    ensures var s := ForState(Read(e, t));
            var d := Cycle(e, t).detectors;
            if Diagnostic.Accepted(s) then
              && d.stuckCount == (if s.omega == e.detectors.lastOmega && s.v > 1.0
                                  then Wrap32(e.detectors.stuckCount + 1) else 0)
              && d.lastOmega == s.omega && d.lastV == s.v
              && (SensorStuck in OutputOf(e, t).dtc <==> d.stuckCount >= 10)
            else
              && d.stuckCount == e.detectors.stuckCount
              && d.lastOmega == e.detectors.lastOmega && d.lastV == e.detectors.lastV
              && SensorStuck !in OutputOf(e, t).dtc
  {
  }

  lemma FrozenRunGrows(h: seq<Sample>, s: Sample)
    ensures FrozenRun(h + [s]) == if s.omega == OmegaBefore(h) && s.v > 1.0 then FrozenRun(h) + 1 else 0
    ensures OmegaBefore(h + [s]) == s.omega && SpeedBefore(h + [s]) == s.v
  {
    assert (h + [s])[..|h|] == h;
  }

  lemma AcceptedGrows(ticks: seq<Tick>)
    requires ticks != []
    ensures var n := |ticks| - 1;
            var s := ForState(Read(Run(INITIAL, ticks[..n]), ticks[n]));
            var h := AcceptedSamples(ticks[..n]);
            AcceptedSamples(ticks) == if Diagnostic.Accepted(s) then h + [s] else h
  {
  }

  /** The detector's counter is the length of the frozen run, reduced to 32 bits, and it remembers the last sample. */
  lemma {:induction false} StuckIsHistory(ticks: seq<Tick>)
    ensures var d := Run(INITIAL, ticks).detectors;
            var h := AcceptedSamples(ticks);
            d.stuckCount == Wrap32(FrozenRun(h)) && d.lastOmega == OmegaBefore(h) && d.lastV == SpeedBefore(h)
  {
    hide Cycle, OutputOf, Read, ForState, AcceptedSamples, FrozenRun, OmegaBefore, SpeedBefore, Wrap32, Diagnostic.Accepted;
    if ticks == [] {
      NoSamplesYet();
    } else {
      var n := |ticks| - 1;
      var e := Run(INITIAL, ticks[..n]);
      var h := AcceptedSamples(ticks[..n]);
      StuckIsHistory(ticks[..n]);
      CheckCounts(e, ticks[n]);
      AcceptedGrows(ticks);
      FrozenRunGrows(h, ForState(Read(e, ticks[n])));
      WrapAdds(FrozenRun(h), 1);
      WrapSmall(0);
    }
  }

  lemma NoSamplesYet()
    ensures AcceptedSamples([]) == [] && FrozenRun([]) == 0 && Wrap32(0) == 0
    ensures OmegaBefore([]) == 0.0 && SpeedBefore([]) == 0.0
  {
  }

  /**
   The code is raised in a cycle exactly when its sample is checked and the last ten checked
   samples, or more, each repeated their predecessor, up to the wrap of the counter.
   */
  lemma StuckIffTenRepeats(ticks: seq<Tick>, k: nat)
    requires k < |ticks|
    ensures SensorStuck in OutputAt(INITIAL, ticks, k).dtc <==>
            Diagnostic.Accepted(InputAt(INITIAL, ticks, k).sample) &&
            Wrap32(FrozenRun(AcceptedSamples(ticks[..k + 1]))) >= 10
  {
    hide Cycle, OutputOf;
    var run := ticks[..k + 1];
    assert run[..k] == ticks[..k];
    CheckCounts(Run(INITIAL, ticks[..k]), ticks[k]);
    StuckIsHistory(run);
  }

  /** Every cycle brings a fresh sample whose content is checked. */
  ghost predicate AllChecked(ticks: seq<Tick>) {
    forall t <- ticks :: t.read.Some? && Diagnostic.Accepted(t.read.value.(valid := true))
  }

  function OmegaOf(t: Tick): real
    requires t.read.Some?
  {
    t.read.value.omega
  }

  /** The sample of cycle `k` repeats the one before it, the first one an initial zero, in motion. */
  predicate Unchanged(ticks: seq<Tick>, k: nat)
    requires k < |ticks| && forall t <- ticks :: t.read.Some?
  {
    assert ticks[k] in ticks;
    ticks[k].read.value.v > 1.0 &&
    OmegaOf(ticks[k]) == if k == 0 then 0.0 else assert ticks[k - 1] in ticks; OmegaOf(ticks[k - 1])
  }

  lemma {:induction false} CheckedAreRead(ticks: seq<Tick>)
    requires AllChecked(ticks)
    ensures |AcceptedSamples(ticks)| == |ticks|
    ensures forall k: nat :: k < |ticks| ==>
              ticks[k].read.Some? && AcceptedSamples(ticks)[k] == ticks[k].read.value.(valid := true)
  {
    hide Read, ForState, Run, Diagnostic.Accepted;
    if ticks != [] {
      var n := |ticks| - 1;
      assert forall t <- ticks[..n] :: t in ticks;
      CheckedAreRead(ticks[..n]);
      assert ticks[n] in ticks;
      FreshIsUsed(Run(INITIAL, ticks[..n]), ticks[n]);
      AcceptedGrows(ticks);
    }
  }

  lemma TenInARow(h: seq<Sample>)
    ensures FrozenRun(h) >= 10 <==>
            |h| >= 10 && forall k: nat :: |h| - 10 <= k < |h| ==> Repeats(h, k)
  {
    hide FrozenRun, Repeats;
    FrozenRunMeans(h);
  }

  /** With a checked sample in every cycle: raised iff the last ten samples all were repeats. */
  lemma StuckIffTenUnchanged(ticks: seq<Tick>, k: nat)
    requires AllChecked(ticks) && k < |ticks| < U32
    ensures SensorStuck in OutputAt(INITIAL, ticks, k).dtc <==>
            k >= 9 && forall j: nat :: k - 9 <= j <= k ==> Unchanged(ticks, j)
  {
    hide Cycle, OutputOf, InputOf, FrozenRun, AcceptedSamples, Run, Diagnostic.Accepted;
    var run := ticks[..k + 1];
    assert forall t <- run :: t in ticks;
    CheckedAreRead(run);
    var h := AcceptedSamples(run);
    StuckIffTenRepeats(ticks, k);
    assert ticks[k] in ticks;
    FreshInput(ticks, k);
    FrozenRunFits(h);
    TenInARow(h);
    forall j: nat | j <= k ensures Repeats(h, j) == Unchanged(ticks, j) {
      assert run[j] == ticks[j];
      if j > 0 {
        assert run[j - 1] == ticks[j - 1];
      }
    }
  }

  lemma FrozenRunFits(h: seq<Sample>)
    requires |h| < U32
    ensures Wrap32(FrozenRun(h)) == FrozenRun(h)
  {
    WrapSmall(FrozenRun(h));
  }

  lemma FreshInput(ticks: seq<Tick>, k: nat)
    requires k < |ticks| && ticks[k].read.Some?
    ensures InputAt(INITIAL, ticks, k).sample == ticks[k].read.value.(valid := true)
  {
    FreshIsUsed(Run(INITIAL, ticks[..k]), ticks[k]);
  }

  // ---- every code as a function of history ----

  /** How many checked samples at the end of a history outran the body. */
  function TooFastRun(samples: seq<Sample>): nat {
    if samples == [] || !Diagnostic.TooFast(samples[|samples| - 1], WHEEL_RADIUS) then 0
    else TooFastRun(samples[..|samples| - 1]) + 1
  }

  lemma CheckOutrun(e: State, t: Tick)
    ensures var s := ForState(Read(e, t));
            var d := Cycle(e, t).detectors;
            if Diagnostic.Accepted(s) then
              && d.implausibleCount == (if Diagnostic.TooFast(s, WHEEL_RADIUS)
                                        then Wrap32(e.detectors.implausibleCount + 1) else 0)
              && (Implausible in OutputOf(e, t).dtc <==> s.v >= 1.0 && d.implausibleCount >= 5)
            else
              && d.implausibleCount == e.detectors.implausibleCount
              && Implausible !in OutputOf(e, t).dtc
  {
  }

  lemma TooFastRunGrows(h: seq<Sample>, s: Sample)
    ensures TooFastRun(h + [s]) == if Diagnostic.TooFast(s, WHEEL_RADIUS) then TooFastRun(h) + 1 else 0
  {
    assert (h + [s])[..|h|] == h;
  }

  lemma {:induction false} OutrunIsHistory(ticks: seq<Tick>)
    ensures Run(INITIAL, ticks).detectors.implausibleCount == Wrap32(TooFastRun(AcceptedSamples(ticks)))
  {
    hide Cycle, OutputOf, Read, ForState, AcceptedSamples, TooFastRun, Wrap32, Diagnostic.Accepted, Diagnostic.TooFast;
    if ticks == [] {
      NoneTooFastYet();
    } else {
      var n := |ticks| - 1;
      var e := Run(INITIAL, ticks[..n]);
      var h := AcceptedSamples(ticks[..n]);
      OutrunIsHistory(ticks[..n]);
      CheckOutrun(e, ticks[n]);
      AcceptedGrows(ticks);
      TooFastRunGrows(h, ForState(Read(e, ticks[n])));
      WrapAdds(TooFastRun(h), 1);
      WrapSmall(0);
    }
  }

  lemma NoneTooFastYet()
    ensures AcceptedSamples([]) == [] && TooFastRun([]) == 0 && Wrap32(0) == 0
  {
  }

  lemma RangeAndNoise(e: State, t: Tick)
    ensures var s := ForState(Read(e, t));
            (SensorRange in OutputOf(e, t).dtc <==> s.valid && Diagnostic.OutOfRange(s)) &&
            (CommTimeout in OutputOf(e, t).dtc <==> Read(e, t).missed > 5) &&
            SensorNoise !in OutputOf(e, t).dtc
  {
  }

  /**
   Every code of a cycle except the CRC rate, from the history alone. The counters are 32 bits
   wide, which is where the reductions come from.
   */
  lemma DtcIsHistory(ticks: seq<Tick>, k: nat)
    requires k < |ticks|
    ensures var dtc := OutputAt(INITIAL, ticks, k).dtc;
            var s := InputAt(INITIAL, ticks, k).sample;
            var run := ticks[..k + 1];
            var h := AcceptedSamples(run);
            && (SensorStuck in dtc <==> Diagnostic.Accepted(s) && Wrap32(FrozenRun(h)) >= 10)
            && (Implausible in dtc <==> Diagnostic.Accepted(s) && Wrap32(TooFastRun(h)) >= 5)
            && (SensorRange in dtc <==> s.valid && Diagnostic.OutOfRange(s))
            && (CommTimeout in dtc <==> Wrap32(TrailingMissed(run)) > 5)
            && SensorNoise !in dtc
  {
    hide Cycle, OutputOf, Diagnostic.OutOfRange;
    var run := ticks[..k + 1];
    var e := Run(INITIAL, ticks[..k]);
    assert run[..k] == ticks[..k];
    StuckIffTenRepeats(ticks, k);
    CheckOutrun(e, ticks[k]);
    OutrunIsHistory(run);
    RangeAndNoise(e, ticks[k]);
    CycleReads(e, ticks[k]);
    MissedIsHistory(run);
  }

  /** Every cycle brings a fresh sample in range from a moving vehicle, with one wheel speed. */
  ghost predicate FrozenTicks(ticks: seq<Tick>, omega: real) {
    forall t <- ticks :: t.read.Some? &&
      var s := t.read.value;
      s.omega == omega && 1.0 < s.v <= 120.0 && -1.0 <= omega <= 500.0 && s.finite
  }

  lemma FreshIsUsed(e: State, t: Tick)
    requires t.read.Some?
    ensures ForState(Read(e, t)) == t.read.value.(valid := true)
  {
  }

  lemma {:induction false} StuckCountBounded(ticks: seq<Tick>)
    ensures Run(INITIAL, ticks).detectors.stuckCount <= |ticks|
  {
    hide Cycle, OutputOf;
    if ticks != [] {
      var n := |ticks| - 1;
      StuckCountBounded(ticks[..n]);
      CheckCounts(Run(INITIAL, ticks[..n]), ticks[n]);
    }
  }

  lemma {:induction false} FrozenCount(e: State, frozen: seq<Tick>, omega: real)
    requires FrozenTicks(frozen, omega) && frozen != []
    requires e.detectors.stuckCount + |frozen| < U32
    ensures var d := Run(e, frozen).detectors;
            d.lastOmega == omega &&
            |frozen| - 1 <= d.stuckCount <= e.detectors.stuckCount + |frozen|
  {
    hide Cycle, OutputOf;
    var n := |frozen| - 1;
    assert frozen[n] in frozen;
    if n > 0 {
      assert forall t <- frozen[..n] :: t in frozen;
      FrozenCount(e, frozen[..n], omega);
    }
    var last := Run(e, frozen[..n]);
    FreshIsUsed(last, frozen[n]);
    CheckCounts(last, frozen[n]);
    if last.detectors.stuckCount + 1 < U32 {
      WrapSmall(last.detectors.stuckCount + 1);
    }
  }

  lemma FrozenRaises(e: State, frozen: seq<Tick>, omega: real, k: nat)
    requires FrozenTicks(frozen, omega) && 10 <= k < |frozen|
    requires e.detectors.stuckCount + |frozen| < U32
    ensures SensorStuck in OutputAt(e, frozen, k).dtc
  {
    hide Cycle, OutputOf;
    assert forall t <- frozen[..k + 1] :: t in frozen;
    FrozenCount(e, frozen[..k + 1], omega);
    assert frozen[..k + 1][..k] == frozen[..k];
    assert frozen[k] in frozen;
    FreshIsUsed(Run(e, frozen[..k]), frozen[k]);
    CheckCounts(Run(e, frozen[..k]), frozen[k]);
  }

  /**
   Whatever came before, a frozen sensor raises the code from its eleventh sample on, and from
   the twentieth on the ECU is latched.
   */
  lemma FrozenSensorLatches(before: seq<Tick>, frozen: seq<Tick>, omega: real, k: nat)
    requires FrozenTicks(frozen, omega) && k < |frozen|
    requires |before| + |frozen| < U32
    ensures var o := OutputAt(INITIAL, before + frozen, |before| + k);
            && (k >= 10 ==> SensorStuck in o.dtc)
            && (k >= 19 ==> o.status == FAULT_LATCHED && o.command == frozen[k].request)
  {
    hide Cycle, OutputOf, InputOf;
    var e := Run(INITIAL, before);
    StuckCountBounded(before);
    OutputConcat(INITIAL, before, frozen, k);
    if k >= 10 {
      FrozenRaises(e, frozen, omega, k);
    }
    if k >= 19 {
      forall j | |before| + 10 <= j < |before| + 20
        ensures AbsState.Faulty(InputAt(INITIAL, before + frozen, j))
      {
        var i := j - |before|;
        FrozenRaises(e, frozen, omega, i);
        DtcIsFault(e, frozen, i, SensorStuck);
        OutputConcat(INITIAL, before, frozen, i);
      }
      LatchedAfterTenFaults(before + frozen, |before| + 10, |before| + k);
    }
  }
}
