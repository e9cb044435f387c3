/** The whole control loop against the plant's reference controller, cycle by cycle. */
module LoopOracle {
  import opened Sensors
  import AbsState
  import Oracle
  import opened Ecu

  /** What the reference is given: slip and speed as the loop sees them in cycle `k`, and the pedal. */
  function MomentAt(ticks: seq<Tick>, k: nat): Oracle.Moment
    requires k < |ticks|
  {
    var i := InputAt(INITIAL, ticks, k);
    Oracle.Moment(i.slip, i.sample.v, ticks[k].request)
  }

  function Moments(ticks: seq<Tick>): (moments: seq<Oracle.Moment>)
    ensures |moments| == |ticks|
  {
    seq(|ticks|, k requires 0 <= k < |ticks| => MomentAt(ticks, k))
  }

  predicate Slow(ticks: seq<Tick>, k: nat)
    requires k < |ticks|
  {
    MomentAt(ticks, k).v < LOW_SPEED_BYPASS
  }

  /** No cycle has a code or an unusable sample. */
  ghost predicate FaultFree(ticks: seq<Tick>) {
    forall k: nat :: k < |ticks| ==> !AbsState.Faulty(InputAt(INITIAL, ticks, k))
  }

  /** In no cycle is the ECU in standby at a speed above walking pace. */
  ghost predicate NeverCoasting(ticks: seq<Tick>) {
    forall k: nat :: k < |ticks| && OutputAt(INITIAL, ticks, k).status == STANDBY ==> Slow(ticks, k)
  }

  ghost predicate NeverBackUp(ticks: seq<Tick>) {
    forall i: nat, j: nat :: i < j < |ticks| && Slow(ticks, i) ==> Slow(ticks, j)
  }

  lemma SamePrefix(ticks: seq<Tick>, n: nat)
    requires n <= |ticks|
    ensures Moments(ticks[..n]) == Moments(ticks)[..n]
    ensures forall k: nat :: k < n ==>
              Slow(ticks[..n], k) == Slow(ticks, k) &&
              InputAt(INITIAL, ticks[..n], k) == InputAt(INITIAL, ticks, k) &&
              OutputAt(INITIAL, ticks[..n], k) == OutputAt(INITIAL, ticks, k)
  {
    hide InputOf, OutputOf, Run;
    forall k: nat | k < n ensures ticks[..n][..k] == ticks[..k] && ticks[..n][k] == ticks[k] {
    }
  }

  lemma CycleAgrees(e: State, t: Tick)
    requires var i := InputOf(e, t);
             var status := OutputOf(e, t).status;
             && !AbsState.Faulty(i)
             && (e.fsm.current in {INIT, STANDBY, MONITOR, ACTIVE})
             && (status == STANDBY ==> i.sample.v < LOW_SPEED_BYPASS)
    ensures var i := InputOf(e, t);
            Cycle(e, t).command == Oracle.OracleCommand(e.command, i.slip, i.sample.v, t.request)
    ensures Cycle(e, t).fsm.current in {STANDBY, MONITOR, ACTIVE}
  {
    hide Report, Read, ForState;
  }

  lemma {:induction false} HealthyStates(ticks: seq<Tick>)
    requires FaultFree(ticks)
    ensures Run(INITIAL, ticks).fsm.current in
            if ticks == [] then {INIT} else {STANDBY, MONITOR, ACTIVE}
  {
    hide InputOf, OutputOf, Cycle;
    if ticks != [] {
      var n := |ticks| - 1;
      SamePrefix(ticks, n);
      HealthyStates(ticks[..n]);
      assert !AbsState.Faulty(InputAt(INITIAL, ticks, n));
      HealthyCycle(Run(INITIAL, ticks[..n]), ticks[n]);
    }
  }

  lemma HealthyCycle(e: State, t: Tick)
    requires !AbsState.Faulty(InputOf(e, t)) && e.fsm.current in {INIT, STANDBY, MONITOR, ACTIVE}
    ensures Cycle(e, t).fsm.current in {STANDBY, MONITOR, ACTIVE}
    ensures Cycle(e, t).fsm.current == STANDBY ==>
              e.fsm.current == STANDBY || InputOf(e, t).sample.v < LOW_SPEED_BYPASS
  {
    hide InputOf;
  }

  /** A fault-free run that never coasts commands what the reference commands. */
  lemma {:induction false} LoopIsOracle(ticks: seq<Tick>)
    requires FaultFree(ticks) && NeverCoasting(ticks)
    ensures Run(INITIAL, ticks).command == Oracle.RunOracle(Moments(ticks))
  {
    hide InputOf, OutputOf, Cycle, Oracle.OracleCommand;
    if ticks != [] {
      var n := |ticks| - 1;
      SamePrefix(ticks, n);
      LoopIsOracle(ticks[..n]);
      HealthyStates(ticks[..n]);
      assert !AbsState.Faulty(InputAt(INITIAL, ticks, n));
      assert OutputAt(INITIAL, ticks, n).status == STANDBY ==> Slow(ticks, n);
      CycleAgrees(Run(INITIAL, ticks[..n]), ticks[n]);
    }
  }

  lemma {:induction false} StandbyWasSlow(ticks: seq<Tick>)
    requires FaultFree(ticks) && Run(INITIAL, ticks).fsm.current == STANDBY
    ensures exists i: nat :: i < |ticks| && Slow(ticks, i)
  {
    hide InputOf, OutputOf, Cycle;
    if ticks != [] {
      var n := |ticks| - 1;
      var e := Run(INITIAL, ticks[..n]);
      SamePrefix(ticks, n);
      HealthyStates(ticks[..n]);
      assert !AbsState.Faulty(InputAt(INITIAL, ticks, n));
      HealthyCycle(e, ticks[n]);
      if !Slow(ticks, n) {
        StandbyWasSlow(ticks[..n]);
        var i: nat :| i < n && Slow(ticks[..n], i);
        assert Slow(ticks, i);
      }
    }
  }

  /** In particular: every fault-free stop, in which the speed never climbs back over the bypass. */
  lemma StoppingLoopIsOracle(ticks: seq<Tick>)
    requires FaultFree(ticks) && NeverBackUp(ticks)
    ensures Run(INITIAL, ticks).command == Oracle.RunOracle(Moments(ticks))
  {
    hide InputOf, OutputOf, Cycle, Slow;
    forall k: nat | k < |ticks| && OutputAt(INITIAL, ticks, k).status == STANDBY
      ensures Slow(ticks, k)
    {
      SamePrefix(ticks, k + 1);
      assert ticks[..k + 1][..k] == ticks[..k];
      LastOutput(Run(INITIAL, ticks[..k]), ticks[k]);
      StandbyWasSlow(ticks[..k + 1]);
      var i: nat :| i < k + 1 && Slow(ticks[..k + 1], i);
      assert Slow(ticks, i);
    }
    LoopIsOracle(ticks);
  }
}
