/**
 The loop in physical units: which raw samples are faults, release the brake or re-apply it, and
 what happens before the first sample. Speeds are in m/s, wheel speeds in rad/s, and the wheel's
 rim moves at 0.3 times its speed.
 */
module EcuNumbers {
  import opened UInt32
  import opened Sensors
  import AbsState
  import Oracle
  import Vehicle
  import opened Ecu
  import EcuRuns
  import LoopOracle

  // ---- slip ----

  lemma RatioBounds(x: real, v: real, c: real)
    requires v > 0.0
    ensures x / v > c <==> x > c * v
    ensures x / v < c <==> x < c * v
    ensures x / v * v == x
  {
    var q := x / v;
    assert q * v == x;
    if q > c {
      Vehicle.Multiply(q, c, v);
    } else if q < c {
      Vehicle.Multiply(c, q, v);
    }
  }

  /** The slip of the loop from speed and wheel speed: zero at crawling speed, else the ratio. */
  lemma SlipInNumbers(s: Sample)
    ensures -1.0 < s.v < 1.0 ==> SlipOf(s) == 0.0
    ensures s.v >= 1.0 ==>
              && (SlipOf(s) > 0.2 <==> 0.3 * s.omega < 0.8 * s.v)
              && (SlipOf(s) < 0.1 <==> 0.3 * s.omega > 0.9 * s.v)
              && (0.0 <= 0.3 * s.omega <= s.v ==> SlipOf(s) * s.v == s.v - 0.3 * s.omega)
  {
    if s.v >= 1.0 {
      var x := s.v - s.omega * 0.3;
      RatioBounds(x, s.v, 0.0);
      RatioBounds(x, s.v, 1.0);
      RatioBounds(x, s.v, 0.2);
      RatioBounds(x, s.v, 0.1);
    }
  }

  /** The ECU and the plant compute the same slip from the same speeds. */
  lemma SameSlip(s: Sample)
    ensures SlipOf(s) == Vehicle.Slip(s.v, s.omega)
  {
  }

  // ---- faults ----

  lemma FaultInNumbers(i: AbsState.Input)
    ensures var s := i.sample;
            AbsState.Faulty(i) <==>
            i.dtc != {} || !s.valid || s.v < -1.0 || s.v > 120.0 || s.omega < -1.0 || s.omega > 500.0
  {
  }

  /** With a fresh sample the range code is raised exactly outside these bounds. */
  lemma RangeInNumbers(ticks: seq<Tick>, k: nat)
    requires k < |ticks| && ticks[k].read.Some?
    ensures var s := ticks[k].read.value;
            SensorRange in OutputAt(INITIAL, ticks, k).dtc <==>
            !s.finite || s.v < -1.0 || s.v > 120.0 || s.omega < -1.0 || s.omega > 500.0
  {
    hide Run, OutputOf;
    var e := Run(INITIAL, ticks[..k]);
    EcuRuns.FreshIsUsed(e, ticks[k]);
    EcuRuns.RangeAndNoise(e, ticks[k]);
  }

  // ---- status and command ----

  /** Where the state machine goes from `from` on a healthy sample. */
  function NextStatus(from: EcuStatus, s: Sample): EcuStatus {
    if from == FAULT_LATCHED then FAULT_LATCHED
    else if 3.6 * s.v < 5.0 then STANDBY
    else
      match from
      case STANDBY => if s.brake > 5.0 then MONITOR else STANDBY
      case MONITOR => if 0.3 * s.omega < 0.8 * s.v then ACTIVE else MONITOR
      case ACTIVE => if 0.3 * s.omega > 0.9 * s.v then MONITOR else ACTIVE
      case _ => MONITOR
  }

  /**
   A cycle on a fresh sample from any state: after a fault the pedal passes; otherwise the brake is
   released where the rim is more than a fifth slower than the body, re-applied where it is less
   than a tenth slower, and held in between, above 5 km/h and while the ABS is on guard.
   */
  lemma CycleInNumbers(e: State, t: Tick)
    requires t.read.Some?
    ensures var s := t.read.value.(valid := true);
            var o := OutputOf(e, t);
            if o.dtc != {} || s.v < -1.0 || s.v > 120.0 || s.omega < -1.0 || s.omega > 500.0 then
              o.status in {FAULT_DEGRADED, FAULT_LATCHED} && o.command == t.request
            else
              && o.status == NextStatus(e.fsm.current, s)
              && o.command ==
                 if 3.6 * s.v < 5.0 || o.status !in {MONITOR, ACTIVE} then t.request
                 else if 0.3 * s.omega < 0.8 * s.v then 0.0
                 else if 0.3 * s.omega > 0.9 * s.v then t.request
                 else e.command
  {
    hide Report, SlipOf, Read, ForState;
    EcuRuns.FreshIsUsed(e, t);
    var s := t.read.value.(valid := true);
    SlipInNumbers(s);
    FaultInNumbers(InputOf(e, t));
    SlowInNumbers(s.v);
  }

  lemma SlowInNumbers(v: real)
    ensures v < LOW_SPEED_BYPASS <==> 3.6 * v < 5.0
  {
    assert LOW_SPEED_BYPASS * 3.6 == 5.0;
  }

  // ---- a whole stop ----

  /** A sample that settles the command by itself: slow, slipping, or rolling. */
  predicate Settles(s: Sample) {
    3.6 * s.v < 5.0 || 0.3 * s.omega < 0.8 * s.v || 0.3 * s.omega > 0.9 * s.v
  }

  ghost predicate AllFresh(ticks: seq<Tick>) {
    forall k: nat :: k < |ticks| ==> ticks[k].read.Some?
  }

  /** Cycle `j` is the last one whose sample settled the command. */
  ghost predicate LastSettled(ticks: seq<Tick>, j: nat)
    requires AllFresh(ticks)
  {
    j < |ticks| && Settles(ticks[j].read.value) &&
    forall k: nat :: j < k < |ticks| ==> !Settles(ticks[k].read.value)
  }

  lemma MomentInNumbers(ticks: seq<Tick>, k: nat)
    requires k < |ticks| && ticks[k].read.Some?
    ensures var s := ticks[k].read.value;
            var m := LoopOracle.MomentAt(ticks, k);
            && m.v == s.v && m.request == ticks[k].request
            && (Oracle.Decides(m) <==> Settles(s))
            && (3.6 * s.v >= 5.0 ==> (m.slip > SLIP_UPPER <==> 0.3 * s.omega < 0.8 * s.v))
            && (s.v < LOW_SPEED_BYPASS <==> 3.6 * s.v < 5.0)
  {
    hide Run, SlipOf, Report;
    var s := ticks[k].read.value;
    EcuRuns.FreshIsUsed(Run(INITIAL, ticks[..k]), ticks[k]);
    SlipInNumbers(s.(valid := true));
    SlowInNumbers(s.v);
  }

  /**
   In a fault-free stop the command is what the last settling sample says: nothing if the wheel
   was slipping above 5 km/h, else the pedal of that cycle.
   */
  lemma StopInNumbers(ticks: seq<Tick>, j: nat)
    requires LoopOracle.FaultFree(ticks) && LoopOracle.NeverBackUp(ticks) && AllFresh(ticks)
    requires LastSettled(ticks, j)
    ensures var s := ticks[j].read.value;
            Run(INITIAL, ticks).command ==
            if 3.6 * s.v >= 5.0 && 0.3 * s.omega < 0.8 * s.v then 0.0 else ticks[j].request
  {
    hide LoopOracle.MomentAt, Settles, Run, Oracle.Decides, LoopOracle.FaultFree, LoopOracle.NeverBackUp;
    var moments := LoopOracle.Moments(ticks);
    forall k: nat | k < |ticks|
      ensures Oracle.Decides(moments[k]) <==> Settles(ticks[k].read.value)
    {
      MomentInNumbers(ticks, k);
    }
    MomentInNumbers(ticks, j);
    LoopOracle.StoppingLoopIsOracle(ticks);
    Oracle.CommandIsLastDecision(moments);
    assert Oracle.LastDecision(moments, j);
  }

  // ---- before the first sample ----

  lemma BlindCycle(e: State, t: Tick)
    requires t.read.None? && e.cur == BLANK && e.lastGood == BLANK
    ensures var c := Cycle(e, t);
            && c.cur == BLANK && c.lastGood == BLANK
            && AbsState.Faulty(InputOf(e, t)) && OutputOf(e, t).command == t.request
            && c.fsm.faultCount == Wrap32(e.fsm.faultCount + 1)
            && c.fsm.current == (if e.fsm.current == FAULT_LATCHED || c.fsm.faultCount >= 10
                                 then FAULT_LATCHED else FAULT_DEGRADED)
  {
    hide Report;
  }

  /**
   While no sample has ever arrived every cycle is a fault that passes the pedal: degraded for nine
   cycles, latched from the tenth. The counter of faults is the number of cycles.
   */
  lemma {:induction false} BlindStart(ticks: seq<Tick>)
    requires EcuRuns.AllMissed(ticks)
    ensures var e := Run(INITIAL, ticks);
            && e.cur == BLANK && e.lastGood == BLANK
            && e.fsm.faultCount == Wrap32(|ticks|)
            && e.fsm.current == (if ticks == [] then INIT
                                 else if |ticks| <= 9 then FAULT_DEGRADED else FAULT_LATCHED)
            && (ticks != [] ==> e.command == ticks[|ticks| - 1].request)
  {
    hide Cycle, OutputOf, InputOf;
    if ticks == [] {
      WrapSmall(0);
    } else {
      var n := |ticks| - 1;
      assert ticks[n] in ticks;
      assert forall t <- ticks[..n] :: t in ticks;
      BlindStart(ticks[..n]);
      BlindCycle(Run(INITIAL, ticks[..n]), ticks[n]);
      LastOutput(Run(INITIAL, ticks[..n]), ticks[n]);
      WrapAdds(n, 1);
      if n + 1 < U32 {
        WrapSmall(n + 1);
      }
    }
  }

  /** An ECU that waits ten cycles for its first sample never controls the brake in that run. */
  lemma LateFirstSample(ticks: seq<Tick>, rest: seq<Tick>)
    requires EcuRuns.AllMissed(ticks) && |ticks| >= 10
    ensures Run(INITIAL, ticks + rest).fsm.current == FAULT_LATCHED
  {
    hide Cycle, InputOf;
    var e := Run(INITIAL, ticks);
    BlindStart(ticks);
    RunConcat(INITIAL, ticks, rest);
    FsmOfRun(e, rest);
    AbsState.LatchAbsorbs(e.fsm, Inputs(e, rest));
  }

  // ---- plausibility ----

  /** The rim is more than half a metre per second faster than a body that moves at 1 m/s or more. */
  predicate Outruns(s: Sample) {
    s.v >= 1.0 && 0.3 * s.omega > s.v + 0.5
  }

  lemma {:induction false} OutrunMeans(h: seq<Sample>)
    ensures var n := EcuRuns.TooFastRun(h);
            && n <= |h|
            && (forall k: nat :: |h| - n <= k < |h| ==> Outruns(h[k]))
            && (n < |h| ==> !Outruns(h[|h| - n - 1]))
  {
    if h != [] && Outruns(h[|h| - 1]) {
      OutrunMeans(h[..|h| - 1]);
    }
  }

  /** With a checked sample in every cycle: raised iff the last five samples all outran the body. */
  lemma ImplausibleIffFiveOutran(ticks: seq<Tick>, k: nat)
    requires EcuRuns.AllChecked(ticks) && k < |ticks| < U32
    ensures Implausible in OutputAt(INITIAL, ticks, k).dtc <==>
            k >= 4 && forall j: nat :: k - 4 <= j <= k ==> ticks[j].read.Some? && Outruns(ticks[j].read.value)
  {
    hide Cycle, OutputOf, InputOf, EcuRuns.TooFastRun, EcuRuns.AcceptedSamples, Run, Wrap32;
    var run := ticks[..k + 1];
    assert forall t <- run :: t in ticks;
    EcuRuns.CheckedAreRead(run);
    var h := EcuRuns.AcceptedSamples(run);
    EcuRuns.DtcIsHistory(ticks, k);
    assert ticks[k] in ticks;
    EcuRuns.FreshInput(ticks, k);
    OutrunMeans(h);
    WrapSmall(EcuRuns.TooFastRun(h));
    forall j: nat | j <= k ensures ticks[j].read.Some? && (Outruns(h[j]) <==> Outruns(ticks[j].read.value)) {
      assert run[j] == ticks[j];
    }
  }
}
