/** The operating mode of the ECU: fault handling first, then the normal transitions. */
module AbsState {
  import opened UInt32
  import opened Sensors

  const BRAKE_ACTIVE: real := 5.0
  const FAULT_LATCH_THRESHOLD := 10

  predicate Usable(s: Sample) {
    s.valid && -1.0 <= s.v <= 120.0 && -1.0 <= s.omega <= 500.0
  }

  predicate Stopped(s: Sample) {
    s.v < LOW_SPEED_BYPASS
  }

  predicate Braking(s: Sample) {
    s.brake > BRAKE_ACTIVE
  }

  /** The arguments of one update. */
  datatype Input = Input(sample: Sample, slip: real, dtc: set<Dtc>)

  predicate Faulty(i: Input) {
    i.dtc != {} || !Usable(i.sample)
  }

  datatype Fsm = Fsm(current: EcuStatus, previous: EcuStatus, faultCount: uint32, cyclesInState: uint32)

  const INITIAL := Fsm(INIT, INIT, 0, 0)

  /** Where a healthy sample leads from a state that is not latched. */
  function Healthy(from: EcuStatus, i: Input): EcuStatus {
    match from
    case INIT | FAULT_DEGRADED => if Stopped(i.sample) then STANDBY else MONITOR
    case STANDBY => if !Stopped(i.sample) && Braking(i.sample) then MONITOR else STANDBY
    case MONITOR =>
      if Stopped(i.sample) then STANDBY else if i.slip > SLIP_UPPER then ACTIVE else MONITOR
    case ACTIVE =>
      if Stopped(i.sample) then STANDBY else if i.slip < SLIP_LOWER then MONITOR else ACTIVE
    case FAULT_LATCHED => FAULT_LATCHED
  }

  function NextStatus(m: Fsm, i: Input): EcuStatus {
    if Faulty(i) then
      if Wrap32(m.faultCount + 1) >= FAULT_LATCH_THRESHOLD || m.current == FAULT_LATCHED
      then FAULT_LATCHED else FAULT_DEGRADED
    else Healthy(m.current, i)
  }

  function Step(m: Fsm, i: Input): Fsm {
    var next := NextStatus(m, i);
    Fsm(next, m.current,
        if Faulty(i) then Wrap32(m.faultCount + 1)
        else if m.current == FAULT_LATCHED then m.faultCount else 0,
        if next != m.current then 0 else Wrap32(m.cyclesInState + 1))
  }

  class Context {
    var current: EcuStatus
    var previous: EcuStatus
    var faultCount: uint32
    var cyclesInState: uint32

    ghost function Value(): Fsm
      reads this
    {
      Fsm(current, previous, faultCount, cyclesInState)
    }

    constructor ()
      ensures Value() == INITIAL
    {
      current, previous, faultCount, cyclesInState := INIT, INIT, 0, 0;
    }

    method Update(sample: Sample, slip: real, dtc: set<Dtc>) returns (state: EcuStatus)
      modifies this
      ensures Value() == Step(old(Value()), Input(sample, slip, dtc))
      ensures state == current
    {
      previous := current;
      if dtc != {} || !Usable(sample) {
        faultCount := Wrap32(faultCount + 1);
        if faultCount >= FAULT_LATCH_THRESHOLD {
          current := FAULT_LATCHED;
        } else if current != FAULT_LATCHED {
          current := FAULT_DEGRADED;
        }
        cyclesInState := if current != previous then 0 else Wrap32(cyclesInState + 1);
        return current;
      }
      if current == FAULT_LATCHED {
        cyclesInState := Wrap32(cyclesInState + 1);
        return current;
      }
      faultCount := 0;
      match current {
        case INIT =>
          current := if Stopped(sample) then STANDBY else MONITOR;
        case STANDBY =>
          if !Stopped(sample) && Braking(sample) {
            current := MONITOR;
          }
        case MONITOR =>
          if Stopped(sample) {
            current := STANDBY;
          } else if slip > SLIP_UPPER {
            current := ACTIVE;
          }
        case ACTIVE =>
          if Stopped(sample) {
            current := STANDBY;
          } else if slip < SLIP_LOWER {
            current := MONITOR;
          }
        case FAULT_DEGRADED =>
          current := if Stopped(sample) then STANDBY else MONITOR;
        case FAULT_LATCHED =>
      }
      cyclesInState := if current != previous then 0 else Wrap32(cyclesInState + 1);
      state := current;
    }
  }

  // ---- whole histories ----

  function Run(m: Fsm, inputs: seq<Input>): Fsm {
    if inputs == [] then m else Step(Run(m, inputs[..|inputs| - 1]), inputs[|inputs| - 1])
  }

  /** Length of the run of faulty inputs at the end of a history. */
  function TrailingFaults(inputs: seq<Input>): (n: nat)
    ensures n <= |inputs|
    ensures forall k :: |inputs| - n <= k < |inputs| ==> Faulty(inputs[k])
    ensures n < |inputs| ==> !Faulty(inputs[|inputs| - n - 1])
  {
    if inputs == [] || !Faulty(inputs[|inputs| - 1]) then 0
    else TrailingFaults(inputs[..|inputs| - 1]) + 1
  }

  ghost predicate TenFaultsAt(inputs: seq<Input>, i: nat) {
    i + FAULT_LATCH_THRESHOLD <= |inputs| &&
    forall k :: i <= k < i + FAULT_LATCH_THRESHOLD ==> Faulty(inputs[k])
  }

  /** Somewhere in the history ten consecutive cycles were faulty. */
  ghost predicate EverTenFaults(inputs: seq<Input>) {
    exists i: nat :: TenFaultsAt(inputs, i)
  }

  lemma EarlierTenFaults(inputs: seq<Input>, i: nat)
    requires inputs != [] && TenFaultsAt(inputs[..|inputs| - 1], i)
    ensures TenFaultsAt(inputs, i)
  {
    var init := inputs[..|inputs| - 1];
    assert forall k :: 0 <= k < |init| ==> init[k] == inputs[k];
  }

  lemma TenFaultsNowOrBefore(inputs: seq<Input>)
    requires inputs != []
    ensures EverTenFaults(inputs) <==>
            EverTenFaults(inputs[..|inputs| - 1]) || TrailingFaults(inputs) >= FAULT_LATCH_THRESHOLD
  {
    var init := inputs[..|inputs| - 1];
    if EverTenFaults(init) {
      var i: nat :| TenFaultsAt(init, i);
      EarlierTenFaults(inputs, i);
    }
    if TrailingFaults(inputs) >= FAULT_LATCH_THRESHOLD {
      assert TenFaultsAt(inputs, |inputs| - FAULT_LATCH_THRESHOLD);
    }
    if EverTenFaults(inputs) {
      var i: nat :| TenFaultsAt(inputs, i);
      if i + FAULT_LATCH_THRESHOLD < |inputs| {
        assert TenFaultsAt(init, i);
      }
    }
  }

  /** One update, as far as the fault logic goes. */
  lemma FaultLogic(m: Fsm, i: Input)
    ensures var n := Step(m, i);
            if Faulty(i) then
              && n.faultCount == Wrap32(m.faultCount + 1)
              && n.current == (if n.faultCount >= FAULT_LATCH_THRESHOLD || m.current == FAULT_LATCHED
                               then FAULT_LATCHED else FAULT_DEGRADED)
            else
              if m.current == FAULT_LATCHED then n.current == FAULT_LATCHED
              else n.faultCount == 0 && n.current in {STANDBY, MONITOR, ACTIVE}
  {
  }

  /**
   The state is a summary of the history: latched exactly when ten consecutive cycles were ever
   faulty; before that the fault counter is the length of the current faulty run, and the state
   is degraded exactly when that run is not empty. The initial state never comes back.
   */
  lemma {:induction false} LatchIsHistory(inputs: seq<Input>)
    ensures var m := Run(INITIAL, inputs);
            && (m.current == FAULT_LATCHED <==> EverTenFaults(inputs))
            && (m.current != FAULT_LATCHED ==>
                 && m.faultCount == TrailingFaults(inputs)
                 && (m.current == FAULT_DEGRADED <==> m.faultCount > 0))
            && (m.current == INIT <==> inputs == [])
  {
    hide Step, EverTenFaults, Faulty, Wrap32;
    if inputs == [] {
      NoFaultsYet();
    } else {
      var init := inputs[..|inputs| - 1];
      var last := inputs[|inputs| - 1];
      LatchIsHistory(init);
      FaultLogic(Run(INITIAL, init), last);
      TenFaultsNowOrBefore(inputs);
      if init != [] {
        TenFaultsNowOrBefore(init);
      }
      if TrailingFaults(init) + 1 < U32 {
        WrapSmall(TrailingFaults(init) + 1);
      }
    }
  }

  lemma NoFaultsYet()
    ensures !EverTenFaults([])
  {
  }

  /** Latched is forever: from any latched state, whatever the fault counter holds. */
  lemma {:induction false} LatchAbsorbs(m: Fsm, inputs: seq<Input>)
    requires m.current == FAULT_LATCHED
    ensures Run(m, inputs).current == FAULT_LATCHED
  {
    if inputs != [] {
      LatchAbsorbs(m, inputs[..|inputs| - 1]);
    }
  }

  // ---- STANDBY ends only by braking ----

  /** At cycle `j` the vehicle was stopped, and since then it was stopped or nobody braked. */
  ghost predicate StandbySince(inputs: seq<Input>, j: nat) {
    && j < |inputs| && Stopped(inputs[j].sample)
    && forall k :: j <= k < |inputs| ==>
         !Faulty(inputs[k]) && (Stopped(inputs[k].sample) || !Braking(inputs[k].sample))
  }

  lemma StandbyStep(m: Fsm, i: Input)
    ensures Step(m, i).current == STANDBY <==>
            && !Faulty(i) && m.current != FAULT_LATCHED
            && (Stopped(i.sample) || (m.current == STANDBY && !Braking(i.sample)))
  {
  }

  lemma StandbyGrows(inputs: seq<Input>, j: nat)
    requires inputs != [] && j < |inputs| - 1
    ensures var last := inputs[|inputs| - 1];
            StandbySince(inputs, j) <==>
            && StandbySince(inputs[..|inputs| - 1], j)
            && !Faulty(last) && (Stopped(last.sample) || !Braking(last.sample))
  {
    var init := inputs[..|inputs| - 1];
    assert forall k :: 0 <= k < |init| ==> init[k] == inputs[k];
  }

  /**
   Standby exactly when the ECU never latched and, since some cycle at walking pace, the run was
   healthy and the driver did not brake above it.
   */
  lemma {:induction false} StandbyIsHistory(inputs: seq<Input>)
    ensures Run(INITIAL, inputs).current == STANDBY <==>
            !EverTenFaults(inputs) && exists j: nat :: StandbySince(inputs, j)
  {
    hide Step, Faulty, Stopped, Braking, EverTenFaults;
    if inputs != [] {
      var n := |inputs| - 1;
      var init := inputs[..n];
      StandbyIsHistory(init);
      StandbyStep(Run(INITIAL, init), inputs[n]);
      LatchIsHistory(init);
      LatchIsHistory(inputs);
      TenFaultsNowOrBefore(inputs);
      if Run(INITIAL, inputs).current == STANDBY {
        if Stopped(inputs[n].sample) {
          assert StandbySince(inputs, n);
        } else {
          var j: nat :| StandbySince(init, j);
          StandbyGrows(inputs, j);
        }
      }
      if exists j: nat :: StandbySince(inputs, j) {
        var j: nat :| StandbySince(inputs, j);
        if j < n {
          StandbyGrows(inputs, j);
        }
        assert !Faulty(inputs[n]);
      }
    }
  }

  // ---- ACTIVE is a hysteresis band ----

  /** From cycle `j` on everything is healthy, the vehicle moves, and slip never falls too low. */
  ghost predicate BandSince(inputs: seq<Input>, j: nat) {
    && j < |inputs| && inputs[j].slip > SLIP_UPPER
    && forall k :: j <= k < |inputs| ==>
         !Faulty(inputs[k]) && !Stopped(inputs[k].sample) && inputs[k].slip >= SLIP_LOWER
  }

  /** A history that ends on guard: no fault now, never latched, and not standing by. */
  ghost predicate OnGuard(inputs: seq<Input>) {
    && inputs != [] && !Faulty(inputs[|inputs| - 1])
    && !EverTenFaults(inputs) && !exists i: nat :: StandbySince(inputs, i)
  }

  /** The ECU was on guard when slip rose in cycle `j`, and the band has held since. */
  ghost predicate ActiveSince(inputs: seq<Input>, j: nat) {
    BandSince(inputs, j) && OnGuard(inputs[..j])
  }

  lemma OnGuardMeans(inputs: seq<Input>)
    ensures OnGuard(inputs) <==> Run(INITIAL, inputs).current in {MONITOR, ACTIVE}
  {
    hide Step, Faulty, EverTenFaults, StandbySince, Run;
    LatchIsHistory(inputs);
    StandbyIsHistory(inputs);
  }

  lemma ActiveStep(m: Fsm, i: Input)
    ensures Step(m, i).current == ACTIVE <==>
            && !Faulty(i) && !Stopped(i.sample)
            && ((m.current == MONITOR && i.slip > SLIP_UPPER) ||
                (m.current == ACTIVE && i.slip >= SLIP_LOWER))
  {
  }

  lemma BandGrows(inputs: seq<Input>, j: nat)
    requires inputs != [] && j < |inputs| - 1
    ensures var last := inputs[|inputs| - 1];
            ActiveSince(inputs, j) <==>
            && ActiveSince(inputs[..|inputs| - 1], j)
            && !Faulty(last) && !Stopped(last.sample) && last.slip >= SLIP_LOWER
  {
    var init := inputs[..|inputs| - 1];
    assert init[..j] == inputs[..j];
    assert forall k :: 0 <= k < |init| ==> init[k] == inputs[k];
  }

  /**
   The ABS is active exactly when, at some cycle, it was on guard and the slip rose over the upper
   threshold, and since then the run was healthy, moving, and never below the lower one; and it
   monitors exactly when it is on guard and that is not so.
   */
  lemma {:induction false} ActiveIsHysteresis(inputs: seq<Input>)
    ensures Run(INITIAL, inputs).current == ACTIVE <==> exists j: nat :: ActiveSince(inputs, j)
    ensures Run(INITIAL, inputs).current == MONITOR <==>
            OnGuard(inputs) && !exists j: nat :: ActiveSince(inputs, j)
  {
    hide Step, Faulty, Stopped, OnGuard;
    OnGuardMeans(inputs);
    if inputs != [] {
      var n := |inputs| - 1;
      var init := inputs[..n];
      var m := Run(INITIAL, init);
      ActiveIsHysteresis(init);
      OnGuardMeans(init);
      ActiveStep(m, inputs[n]);
      if Run(INITIAL, inputs).current == ACTIVE {
        if m.current == ACTIVE {
          var j: nat :| ActiveSince(init, j);
          BandGrows(inputs, j);
        } else {
          assert ActiveSince(inputs, n);
        }
      }
      if exists j: nat :: ActiveSince(inputs, j) {
        var j: nat :| ActiveSince(inputs, j);
        if j < n {
          BandGrows(inputs, j);
        }
      }
    }
  }

  // ---- how long the state has lasted ----

  /** How many cycles at the end of a history left the state as it was. */
  function Dwell(inputs: seq<Input>): (n: nat)
    ensures n <= |inputs|
  {
    if inputs == [] || Run(INITIAL, inputs).current != Run(INITIAL, inputs[..|inputs| - 1]).current then 0
    else Dwell(inputs[..|inputs| - 1]) + 1
  }

  /** The counter of cycles is the length of the last stretch in one state, which began with a change. */
  lemma {:induction false} DwellIsHistory(inputs: seq<Input>)
    ensures var m, n := Run(INITIAL, inputs), Dwell(inputs);
            && m.cyclesInState == Wrap32(n)
            && (forall j: nat :: |inputs| - n <= j <= |inputs| ==> Run(INITIAL, inputs[..j]).current == m.current)
            && (n < |inputs| ==> Run(INITIAL, inputs[..|inputs| - n - 1]).current != m.current)
            && (inputs != [] ==> m.previous == Run(INITIAL, inputs[..|inputs| - 1]).current)
  {
    hide NextStatus, Faulty;
    assert inputs[..|inputs|] == inputs;
    if inputs == [] {
      WrapSmall(0);
    } else {
      var n := |inputs| - 1;
      var init := inputs[..n];
      DwellIsHistory(init);
      WrapAdds(Dwell(init), 1);
      WrapSmall(0);
      forall j: nat | j <= n ensures init[..j] == inputs[..j] {
      }
    }
  }
}
