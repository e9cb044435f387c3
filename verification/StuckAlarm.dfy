/**
 When the true samples of an undisturbed plant trip the stuck detector. To the ECU a wheel speed
 that does not change while the vehicle moves is a frozen sensor; a locked wheel does not change
 its speed, and neither does one that rolls freely.
 */
module StuckAlarm {
  import opened UInt32
  import opened Sensors
  import Diagnostic
  import Vehicle
  import opened Ecu
  import EcuRuns

  /** Steps of the plant between two samples. */
  const STEPS_PER_SAMPLE := 10

  /** The cycle brings the true state of the plant. */
  predicate Reports(t: Tick, now: Vehicle.State) {
    t.read.Some? && t.read.value.v == now.v && t.read.value.omega == now.omega && t.read.value.finite
  }

  /** States of the plant that pass the range check. */
  predicate Measurable(s: Vehicle.State) {
    0.0 <= s.v <= 120.0 && 0.0 <= s.omega <= 500.0
  }

  // ---- any drive ----

  /** The true state `k` samples after the start of a drive. */
  function TruthAt(speed: real, actions: seq<Vehicle.Action>, k: nat): Vehicle.State
    requires STEPS_PER_SAMPLE * k <= |actions|
  {
    Vehicle.Drive(Vehicle.FreeRolling(speed), actions[..STEPS_PER_SAMPLE * k])
  }

  ghost predicate ReportsDrive(ticks: seq<Tick>, speed: real, actions: seq<Vehicle.Action>) {
    STEPS_PER_SAMPLE * |ticks| <= |actions| &&
    forall k: nat :: k < |ticks| ==> Reports(ticks[k], TruthAt(speed, actions, k))
  }

  lemma {:induction false} SpeedNeverRises(speed: real, actions: seq<Vehicle.Action>, m: nat)
    requires speed >= 0.0 && Vehicle.Drivable(actions) && m <= |actions|
    ensures Vehicle.Drive(Vehicle.FreeRolling(speed), actions).v <=
            Vehicle.Drive(Vehicle.FreeRolling(speed), actions[..m]).v
  {
    hide Vehicle.Step, Vehicle.FreeRolling;
    var n := |actions| - 1;
    if m <= n {
      assert actions[..n][..m] == actions[..m];
      SpeedNeverRises(speed, actions[..n], m);
      Vehicle.LeadIsBounded(speed, actions[..n]);
      Vehicle.StepKeepsLead(Vehicle.Drive(Vehicle.FreeRolling(speed), actions[..n]),
                            actions[n].pressure, actions[n].surface);
    } else {
      assert actions[..m] == actions;
    }
  }

  lemma TruthSlows(speed: real, actions: seq<Vehicle.Action>, j: nat, k: nat)
    requires 0.0 <= speed <= 120.0 && Vehicle.Drivable(actions)
    requires j <= k && STEPS_PER_SAMPLE * k <= |actions|
    ensures TruthAt(speed, actions, k).v <= TruthAt(speed, actions, j).v
    ensures Measurable(TruthAt(speed, actions, k))
  {
    hide Vehicle.Drive, Vehicle.FreeRolling;
    var run := actions[..STEPS_PER_SAMPLE * k];
    assert run[..STEPS_PER_SAMPLE * j] == actions[..STEPS_PER_SAMPLE * j];
    SpeedNeverRises(speed, run, STEPS_PER_SAMPLE * j);
    Vehicle.LeadIsBounded(speed, run);
  }

  lemma ReportIsChecked(t: Tick, now: Vehicle.State)
    requires Reports(t, now) && Measurable(now)
    ensures t.read.Some? && Diagnostic.Accepted(t.read.value.(valid := true))
  {
  }

  lemma DriveIsChecked(ticks: seq<Tick>, speed: real, actions: seq<Vehicle.Action>)
    requires 0.0 <= speed <= 120.0 && Vehicle.Drivable(actions) && ReportsDrive(ticks, speed, actions)
    ensures EcuRuns.AllChecked(ticks)
  {
    hide TruthAt, Diagnostic.Accepted, Reports, Measurable;
    forall t | t in ticks ensures t.read.Some? && Diagnostic.Accepted(t.read.value.(valid := true)) {
      var k: nat :| k < |ticks| && ticks[k] == t;
      TruthSlows(speed, actions, k, k);
      ReportIsChecked(t, TruthAt(speed, actions, k));
    }
  }

  lemma StartsMoving(speed: real, actions: seq<Vehicle.Action>)
    requires speed >= 0.0
    ensures TruthAt(speed, actions, 0) == Vehicle.FreeRolling(speed)
    ensures Vehicle.FreeRolling(speed).omega == 0.0 ==> Vehicle.FreeRolling(speed).v == 0.0
  {
    assert (speed / Vehicle.RADIUS) * Vehicle.RADIUS == speed;
  }

  /** The wheel has had one speed in the samples from `from` to `to`. */
  ghost predicate Steady(speed: real, actions: seq<Vehicle.Action>, from: nat, to: nat)
    requires STEPS_PER_SAMPLE * to <= |actions|
  {
    forall j: nat :: from <= j <= to ==>
      TruthAt(speed, actions, j).omega == TruthAt(speed, actions, to).omega
  }

  /** The wheel has the speed of the sample before. */
  predicate SameAsBefore(speed: real, actions: seq<Vehicle.Action>, j: nat)
    requires 1 <= j && STEPS_PER_SAMPLE * j <= |actions|
  {
    TruthAt(speed, actions, j).omega == TruthAt(speed, actions, j - 1).omega
  }

  lemma UnchangedInDrive(ticks: seq<Tick>, speed: real, actions: seq<Vehicle.Action>, j: nat)
    requires 0.0 <= speed <= 120.0 && ReportsDrive(ticks, speed, actions) && j < |ticks|
    requires forall t <- ticks :: t.read.Some?
    ensures EcuRuns.Unchanged(ticks, j) <==>
            j > 0 && TruthAt(speed, actions, j).v > 1.0 && SameAsBefore(speed, actions, j)
  {
    hide TruthAt;
    assert Reports(ticks[j], TruthAt(speed, actions, j));
    if j == 0 {
      StartsMoving(speed, actions);
    } else {
      assert Reports(ticks[j - 1], TruthAt(speed, actions, j - 1));
    }
  }

  /**
   On every drive that starts free-rolling, braked by anyone and anyhow: the code is raised
   exactly when the vehicle moves and the wheel had one speed in this sample and the ten before.
   */
  lemma StuckIffSteady(ticks: seq<Tick>, speed: real, actions: seq<Vehicle.Action>, k: nat)
    requires 0.0 <= speed <= 120.0 && Vehicle.Drivable(actions) && ReportsDrive(ticks, speed, actions)
    requires k < |ticks| < U32
    ensures SensorStuck in OutputAt(INITIAL, ticks, k).dtc <==>
            k >= 10 && TruthAt(speed, actions, k).v > 1.0 && Steady(speed, actions, k - 10, k)
  {
    hide TruthAt, OutputAt, EcuRuns.Unchanged, ReportsDrive, Steady, SameAsBefore;
    DriveIsChecked(ticks, speed, actions);
    EcuRuns.StuckIffTenUnchanged(ticks, k);
    DriveIsLongEnough(ticks, speed, actions);
    forall j: nat | j <= k
      ensures EcuRuns.Unchanged(ticks, j) <==>
              j > 0 && TruthAt(speed, actions, j).v > 1.0 && SameAsBefore(speed, actions, j)
      ensures TruthAt(speed, actions, k).v <= TruthAt(speed, actions, j).v
    {
      UnchangedInDrive(ticks, speed, actions, j);
      TruthSlows(speed, actions, j, k);
    }
    if k >= 9 {
      assert EcuRuns.Unchanged(ticks, k - 9) ==> k > 9;
    }
    if k >= 10 {
      SteadyIffPairs(speed, actions, k - 10, k);
      if forall j: nat :: k - 9 <= j <= k ==> EcuRuns.Unchanged(ticks, j) {
        assert EcuRuns.Unchanged(ticks, k);
        assert forall j: nat :: k - 10 < j <= k ==> EcuRuns.Unchanged(ticks, j) && SameAsBefore(speed, actions, j);
      }
    }
  }

  lemma DriveIsLongEnough(ticks: seq<Tick>, speed: real, actions: seq<Vehicle.Action>)
    requires ReportsDrive(ticks, speed, actions)
    ensures STEPS_PER_SAMPLE * |ticks| <= |actions|
  {
  }

  lemma {:induction false} SteadyIffPairs(speed: real, actions: seq<Vehicle.Action>, from: nat, to: nat)
    requires from <= to && STEPS_PER_SAMPLE * to <= |actions|
    ensures Steady(speed, actions, from, to) <==>
            forall j: nat :: from < j <= to ==> SameAsBefore(speed, actions, j)
  {
    hide TruthAt;
    if from < to {
      SteadyIffPairs(speed, actions, from, to - 1);
      assert SameAsBefore(speed, actions, to) <==>
             TruthAt(speed, actions, to).omega == TruthAt(speed, actions, to - 1).omega;
    }
  }

  // ---- a vehicle that nobody brakes ----

  ghost predicate Unbraked(actions: seq<Vehicle.Action>) {
    forall k :: 0 <= k < |actions| ==> actions[k].pressure <= 0.0
  }

  lemma RollingStep(s: Vehicle.State, pressure: real, surface: Vehicle.Surface)
    requires s.v >= 0.0 && s.omega * Vehicle.RADIUS == s.v && pressure <= 0.0
    requires Vehicle.Road(surface)
    ensures var n := Vehicle.Step(s, pressure, surface, Vehicle.DT); n.v == s.v && n.omega == s.omega
  {
    Vehicle.SlipOfFastWheel(s.v, s.omega);
    Vehicle.MuBounds(surface, 0.0);
  }

  lemma {:induction false} RollsOn(speed: real, actions: seq<Vehicle.Action>)
    requires speed >= 0.0 && Vehicle.Drivable(actions) && Unbraked(actions)
    ensures var s := Vehicle.Drive(Vehicle.FreeRolling(speed), actions);
            s.v == speed && s.omega == Vehicle.FreeRolling(speed).omega
  {
    hide Vehicle.Step, Vehicle.Road;
    assert (speed / Vehicle.RADIUS) * Vehicle.RADIUS == speed;
    if actions != [] {
      var n := |actions| - 1;
      RollsOn(speed, actions[..n]);
      RollingStep(Vehicle.Drive(Vehicle.FreeRolling(speed), actions[..n]),
                  actions[n].pressure, actions[n].surface);
    }
  }

  lemma TruthRollsOn(speed: real, actions: seq<Vehicle.Action>, k: nat)
    requires speed >= 0.0 && Vehicle.Drivable(actions) && Unbraked(actions)
    requires STEPS_PER_SAMPLE * k <= |actions|
    ensures var s := TruthAt(speed, actions, k);
            s.v == speed && s.omega == Vehicle.FreeRolling(speed).omega
  {
    RollsOn(speed, actions[..STEPS_PER_SAMPLE * k]);
  }

  /** Without braking: raised from the eleventh sample on, iff the vehicle is faster than 1 m/s. */
  lemma StuckIffCruising(ticks: seq<Tick>, speed: real, actions: seq<Vehicle.Action>, k: nat)
    requires 0.0 <= speed <= 120.0 && Vehicle.Drivable(actions) && Unbraked(actions)
    requires ReportsDrive(ticks, speed, actions) && k < |ticks| < U32
    ensures SensorStuck in OutputAt(INITIAL, ticks, k).dtc <==> k >= 10 && speed > 1.0
  {
    hide TruthAt, OutputAt, ReportsDrive;
    DriveIsLongEnough(ticks, speed, actions);
    StuckIffSteady(ticks, speed, actions, k);
    forall j: nat | j <= k
      ensures TruthAt(speed, actions, j).v == speed
      ensures TruthAt(speed, actions, j).omega == Vehicle.FreeRolling(speed).omega
    {
      TruthRollsOn(speed, actions, j);
    }
  }

  lemma CruiseIsFrozen(ticks: seq<Tick>, speed: real, actions: seq<Vehicle.Action>)
    requires 1.0 < speed <= 120.0 && Vehicle.Drivable(actions) && Unbraked(actions)
    requires ReportsDrive(ticks, speed, actions)
    ensures EcuRuns.FrozenTicks(ticks, Vehicle.FreeRolling(speed).omega)
  {
    hide TruthAt;
    var omega := Vehicle.FreeRolling(speed).omega;
    assert omega * Vehicle.RADIUS == speed;
    forall t | t in ticks
      ensures t.read.Some? && var s := t.read.value;
              s.omega == omega && 1.0 < s.v <= 120.0 && -1.0 <= omega <= 500.0 && s.finite
    {
      var k: nat :| k < |ticks| && ticks[k] == t;
      TruthRollsOn(speed, actions, k);
      assert Reports(ticks[k], TruthAt(speed, actions, k));
    }
  }

  /**
   Whatever came before, twenty samples of cruising latch the ECU. With a pedal of zero it commands
   no pressure all the while, so the vehicle does cruise.
   */
  lemma CruiseLatches(before: seq<Tick>, ticks: seq<Tick>, speed: real, actions: seq<Vehicle.Action>, k: nat)
    requires 1.0 < speed <= 120.0 && Vehicle.Drivable(actions) && Unbraked(actions)
    requires ReportsDrive(ticks, speed, actions) && k < |ticks| && |before| + |ticks| < U32
    ensures var o := OutputAt(INITIAL, before + ticks, |before| + k);
            && (k >= 10 ==> SensorStuck in o.dtc)
            && (k >= 19 ==> o.status == FAULT_LATCHED)
            && ((forall t <- before + ticks :: t.request == 0.0) ==> o.command == 0.0)
  {
    hide OutputOf, Cycle, ReportsDrive, EcuRuns.FrozenTicks;
    CruiseIsFrozen(ticks, speed, actions);
    EcuRuns.FrozenSensorLatches(before, ticks, Vehicle.FreeRolling(speed).omega, k);
    if forall t <- before + ticks :: t.request == 0.0 {
      NoPedalNoPressure(before + ticks, |before| + k);
    }
  }

  lemma NoPedalNoPressure(ticks: seq<Tick>, k: nat)
    requires k < |ticks| && forall t <- ticks :: t.request == 0.0
    ensures OutputAt(INITIAL, ticks, k).command == 0.0
  {
    hide OutputOf, Cycle;
    var run := ticks[..k + 1];
    assert forall t <- run :: t in ticks;
    TwoLevels(run, 0.0);
    assert run[..k] == ticks[..k];
    LastOutput(Run(INITIAL, ticks[..k]), ticks[k]);
  }

  // ---- a panic stop ----

  /** The true state `k` samples after `s`, under constant pressure. */
  function StateAt(s: Vehicle.State, p: real, surface: Vehicle.Surface, k: nat): Vehicle.State {
    Vehicle.Brake(s, p, surface, STEPS_PER_SAMPLE * k)
  }

  ghost predicate TrueSamples(ticks: seq<Tick>, s: Vehicle.State, p: real, surface: Vehicle.Surface) {
    forall k: nat :: k < |ticks| ==> Reports(ticks[k], StateAt(s, p, surface, k))
  }

  lemma LaterState(s: Vehicle.State, p: real, surface: Vehicle.Surface, j: nat, k: nat)
    requires Vehicle.Panic(p, surface) && Vehicle.Road(surface) && Measurable(s) && j < k
    ensures var a, b := StateAt(s, p, surface, j), StateAt(s, p, surface, k);
            && Measurable(a) && Measurable(b) && b.v <= a.v
            && (a.omega == b.omega <==> a.omega == 0.0)
  {
    hide Vehicle.Brake, Vehicle.LockRate, Vehicle.SlideRate, Vehicle.Road;
    var n := STEPS_PER_SAMPLE * (k - j);
    var a := StateAt(s, p, surface, j);
    assert STEPS_PER_SAMPLE * k == STEPS_PER_SAMPLE * j + n;
    Vehicle.BrakeAdds(s, p, surface, STEPS_PER_SAMPLE * j, n);
    WheelKeepsSlowing(s, p, surface, STEPS_PER_SAMPLE * j);
    WheelKeepsSlowing(a, p, surface, n);
    if a.omega == 0.0 {
      Vehicle.LockedSlide(a, p, surface, n);
    }
  }

  lemma WheelKeepsSlowing(s: Vehicle.State, p: real, surface: Vehicle.Surface, n: nat)
    requires Vehicle.Panic(p, surface) && Vehicle.Road(surface) && Measurable(s)
    ensures var b := Vehicle.Brake(s, p, surface, n);
            Measurable(b) && b.v <= s.v && (n > 0 && s.omega > 0.0 ==> b.omega < s.omega)
  {
    hide Vehicle.Brake, Vehicle.LockRate, Vehicle.Road;
    var rate := Vehicle.LockRate(p, surface);
    Vehicle.WheelLocks(s, p, surface, n);
    if n > 0 {
      Vehicle.Multiply(n as real, 0.0, rate);
    } else {
      assert Vehicle.Brake(s, p, surface, 0) == s by {
        StillThere(s, p, surface);
      }
    }
  }

  lemma StillThere(s: Vehicle.State, p: real, surface: Vehicle.Surface)
    ensures Vehicle.Brake(s, p, surface, 0) == s
  {
  }

  /** The wheel stood still in the sample before sample `j`, or at the start. */
  predicate LockedBefore(s: Vehicle.State, p: real, surface: Vehicle.Surface, j: nat) {
    StateAt(s, p, surface, if j == 0 then 0 else j - 1).omega == 0.0
  }

  /**
   In a panic stop from any state: the code is raised exactly when the wheel was already locked
   ten samples ago, or for all of the first ten, and the vehicle is still faster than 1 m/s.
   */
  lemma StuckIffLongLocked(ticks: seq<Tick>, s: Vehicle.State, p: real, surface: Vehicle.Surface, k: nat)
    requires Vehicle.Panic(p, surface) && Vehicle.Road(surface) && Measurable(s)
    requires TrueSamples(ticks, s, p, surface) && k < |ticks| < U32
    ensures SensorStuck in OutputAt(INITIAL, ticks, k).dtc <==>
            && k >= 9 && StateAt(s, p, surface, if k == 9 then 0 else k - 10).omega == 0.0
            && StateAt(s, p, surface, k).v > 1.0
  {
    hide OutputAt, Vehicle.Road, Vehicle.LockRate, StateAt, LockedBefore, EcuRuns.Unchanged, TrueSamples;
    StopIsChecked(ticks, s, p, surface);
    EcuRuns.StuckIffTenUnchanged(ticks, k);
    forall j: nat | j <= k
      ensures EcuRuns.Unchanged(ticks, j) <==>
              StateAt(s, p, surface, j).v > 1.0 && LockedBefore(s, p, surface, j)
      ensures StateAt(s, p, surface, k).v <= StateAt(s, p, surface, j).v
    {
      UnchangedInStop(ticks, s, p, surface, j);
      if j < k {
        LaterState(s, p, surface, j, k);
      }
    }
    if k >= 9 {
      LockedBeforeIs(s, p, surface, k - 9);
      assert EcuRuns.Unchanged(ticks, k - 9) && EcuRuns.Unchanged(ticks, k) ==>
             LockedBefore(s, p, surface, k - 9) && StateAt(s, p, surface, k).v > 1.0;
      forall j: nat | k - 9 <= j <= k && LockedBefore(s, p, surface, k - 9)
        ensures LockedBefore(s, p, surface, j)
      {
        LockedStays(s, p, surface, k - 9, j);
      }
    }
  }

  lemma LockedBeforeIs(s: Vehicle.State, p: real, surface: Vehicle.Surface, j: nat)
    ensures LockedBefore(s, p, surface, j) <==>
            StateAt(s, p, surface, if j == 0 then 0 else j - 1).omega == 0.0
  {
  }

  lemma LockedStays(s: Vehicle.State, p: real, surface: Vehicle.Surface, i: nat, j: nat)
    requires Vehicle.Panic(p, surface) && Vehicle.Road(surface) && Measurable(s)
    requires i <= j && LockedBefore(s, p, surface, i)
    ensures LockedBefore(s, p, surface, j)
  {
    hide StateAt, Vehicle.Road, Vehicle.LockRate;
    var from, to := if i == 0 then 0 else i - 1, if j == 0 then 0 else j - 1;
    if from < to {
      LaterState(s, p, surface, from, to);
    }
  }

  lemma UnchangedInStop(ticks: seq<Tick>, s: Vehicle.State, p: real, surface: Vehicle.Surface, j: nat)
    requires Vehicle.Panic(p, surface) && Vehicle.Road(surface) && Measurable(s)
    requires TrueSamples(ticks, s, p, surface) && j < |ticks| && forall t <- ticks :: t.read.Some?
    ensures EcuRuns.Unchanged(ticks, j) <==>
            StateAt(s, p, surface, j).v > 1.0 && LockedBefore(s, p, surface, j)
  {
    hide StateAt, Vehicle.Road, Vehicle.LockRate;
    assert Reports(ticks[j], StateAt(s, p, surface, j));
    if j > 0 {
      assert Reports(ticks[j - 1], StateAt(s, p, surface, j - 1));
      LaterState(s, p, surface, j - 1, j);
    }
  }

  lemma StopIsChecked(ticks: seq<Tick>, s: Vehicle.State, p: real, surface: Vehicle.Surface)
    requires Vehicle.Panic(p, surface) && Vehicle.Road(surface) && Measurable(s)
    requires TrueSamples(ticks, s, p, surface)
    ensures EcuRuns.AllChecked(ticks)
  {
    hide StateAt, Diagnostic.Accepted, Reports, Measurable, Vehicle.Road, Vehicle.LockRate;
    forall t | t in ticks ensures t.read.Some? && Diagnostic.Accepted(t.read.value.(valid := true)) {
      var k: nat :| k < |ticks| && ticks[k] == t;
      LaterState(s, p, surface, k, k + 1);
      ReportIsChecked(t, StateAt(s, p, surface, k));
    }
  }

  // ---- from a locked wheel to the latch ----

  /** The speed that a body behind a locked wheel loses in `n` steps. */
  function Lost(surface: Vehicle.Surface, n: nat): real {
    n as real * Vehicle.SlideRate(surface)
  }

  lemma LostPerStep(surface: Vehicle.Surface, n: nat)
    requires Vehicle.Road(surface)
    ensures Lost(surface, 0) == 0.0
    ensures n > 0 ==> Lost(surface, n) == Lost(surface, n - 1) + Vehicle.SlideRate(surface)
    ensures 0.0 <= Vehicle.SlideRate(surface) <= 0.00981 * surface.peak
  {
    Vehicle.MuBounds(surface, 1.0);
    if n > 0 {
      Vehicle.OneMore(n, Vehicle.SlideRate(surface));
    }
  }

  lemma {:induction false} LostGrows(surface: Vehicle.Surface, m: nat, n: nat)
    requires Vehicle.Road(surface) && m <= n
    ensures Lost(surface, m) <= Lost(surface, n)
  {
    hide Lost, Vehicle.SlideRate;
    if m < n {
      LostGrows(surface, m, n - 1);
      LostPerStep(surface, n);
    }
  }

  lemma {:induction false} SlidesOn(s: Vehicle.State, p: real, surface: Vehicle.Surface, n: nat)
    requires Vehicle.Panic(p, surface) && Vehicle.Road(surface) && s.omega == 0.0
    requires s.v - Lost(surface, n) > 1.0
    ensures var b := Vehicle.Brake(s, p, surface, n);
            b.omega == 0.0 && b.v == s.v - Lost(surface, n)
  {
    hide Lost, Vehicle.Step, Vehicle.LockRate, Vehicle.SlideRate, Vehicle.Road;
    LostPerStep(surface, n);
    if n > 0 {
      SlidesOn(s, p, surface, n - 1);
      LostGrows(surface, 0, n - 1);
      Vehicle.LockedWheelSlides(Vehicle.Brake(s, p, surface, n - 1), p, surface);
    }
  }

  lemma SamplesAreFrozen(ticks: seq<Tick>, s: Vehicle.State, p: real, surface: Vehicle.Surface)
    requires Vehicle.Panic(p, surface) && Vehicle.Road(surface) && s.omega == 0.0 && s.v <= 120.0
    requires TrueSamples(ticks, s, p, surface) && ticks != []
    requires s.v - Lost(surface, STEPS_PER_SAMPLE * (|ticks| - 1)) > 1.0
    ensures EcuRuns.FrozenTicks(ticks, 0.0)
    ensures forall k: nat :: k < |ticks| ==> ticks[k].read.Some? && ticks[k].read.value.v <= s.v
  {
    hide Lost, Vehicle.Brake, Vehicle.Road, Vehicle.LockRate;
    LostPerStep(surface, 0);
    forall k: nat | k < |ticks|
      ensures var r := ticks[k].read;
              r.Some? && r.value.omega == 0.0 && 1.0 < r.value.v <= s.v && r.value.finite
    {
      LostGrows(surface, 0, STEPS_PER_SAMPLE * k);
      LostGrows(surface, STEPS_PER_SAMPLE * k, STEPS_PER_SAMPLE * (|ticks| - 1));
      SlidesOn(s, p, surface, STEPS_PER_SAMPLE * k);
      assert ticks[k].read.Some?;
    }
  }

  /**
   Whatever came before: while a locked wheel slides on above 1 m/s, the true samples raise the
   sensor code from the eleventh on and latch the ECU from the twentieth. Below the bypass speed
   the ECU passes the pedal all the while, so nothing releases the wheel in between.
   */
  lemma LockedWheelLatches(before: seq<Tick>, ticks: seq<Tick>, s: Vehicle.State, p: real,
                           surface: Vehicle.Surface, k: nat)
    requires Vehicle.Panic(p, surface) && Vehicle.Road(surface) && s.omega == 0.0 && s.v <= 120.0
    requires TrueSamples(ticks, s, p, surface) && k < |ticks|
    requires s.v - Lost(surface, STEPS_PER_SAMPLE * (|ticks| - 1)) > 1.0
    requires |before| + |ticks| < U32
    ensures var o := OutputAt(INITIAL, before + ticks, |before| + k);
            && (k >= 10 ==> SensorStuck in o.dtc)
            && (k >= 19 ==> o.status == FAULT_LATCHED)
            && (s.v < LOW_SPEED_BYPASS || k >= 19 ==> o.command == ticks[k].request)
  {
    hide Cycle, OutputOf, Lost, Vehicle.Road, Vehicle.LockRate, EcuRuns.FrozenTicks, TrueSamples;
    SamplesAreFrozen(ticks, s, p, surface);
    EcuRuns.FrozenSensorLatches(before, ticks, 0.0, k);
    OutputConcat(INITIAL, before, ticks, k);
    if s.v < LOW_SPEED_BYPASS {
      SlowPassesPedal(Run(Run(INITIAL, before), ticks[..k]), ticks[k]);
    }
  }

  lemma SlowPassesPedal(e: State, t: Tick)
    requires t.read.Some? && t.read.value.v < LOW_SPEED_BYPASS
    ensures OutputOf(e, t).command == t.request
  {
    hide Report;
  }

  /** It happens on ice: a wheel locked at 1.2 m/s or more slides for the twenty samples needed. */
  lemma IceLatches(before: seq<Tick>, ticks: seq<Tick>, s: Vehicle.State, p: real, surface: Vehicle.Surface)
    requires Vehicle.Panic(p, surface) && Vehicle.Road(surface) && surface.peak <= 0.1
    requires s.omega == 0.0 && 1.2 <= s.v < LOW_SPEED_BYPASS
    requires TrueSamples(ticks, s, p, surface) && |ticks| == 20 && |before| + 20 < U32
    ensures OutputAt(INITIAL, before + ticks, |before| + 19).status == FAULT_LATCHED
    ensures forall k: nat :: k < 20 ==>
              OutputAt(INITIAL, before + ticks, |before| + k).command == ticks[k].request
  {
    hide OutputAt, Vehicle.SlideRate, Vehicle.Road, Vehicle.LockRate, TrueSamples;
    LostPerStep(surface, 0);
    assert Lost(surface, 190) == 190.0 * Vehicle.SlideRate(surface);
    LockedWheelLatches(before, ticks, s, p, surface, 19);
    forall k: nat | k < 20
      ensures OutputAt(INITIAL, before + ticks, |before| + k).command == ticks[k].request
    {
      LockedWheelLatches(before, ticks, s, p, surface, k);
    }
  }
}
