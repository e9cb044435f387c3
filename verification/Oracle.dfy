/** The plant's reference controller, and where the ECU equals it. */
module Oracle {
  import opened Sensors
  import opened AbsController
  import AbsState

  function OracleCommand(previous: real, slip: real, v: real, request: real): real {
    if v < LOW_SPEED_BYPASS then request else BangBang(previous, slip, request)
  }

  class OracleAbs {
    var previousCommand: real

    constructor ()
      ensures previousCommand == 0.0
    {
      previousCommand := 0.0;
    }

    method Reset()
      modifies this
      ensures previousCommand == 0.0
    {
      previousCommand := 0.0;
    }

    method Step(slip: real, v: real, request: real) returns (cmd: real)
      modifies this
      ensures cmd == OracleCommand(old(previousCommand), slip, v, request)
      ensures previousCommand == cmd
    {
      if v < LOW_SPEED_BYPASS {
        previousCommand := request;
        return request;
      }
      if slip > SLIP_UPPER {
        cmd := 0.0;
      } else if slip < SLIP_LOWER {
        cmd := request;
      } else {
        cmd := previousCommand;
      }
      previousCommand := cmd;
    }
  }

  // ---- what hysteresis remembers ----

  datatype Moment = Moment(slip: real, v: real, request: real)

  /** A cycle whose command does not depend on the one before it. */
  predicate Decides(m: Moment) {
    m.v < LOW_SPEED_BYPASS || m.slip > SLIP_UPPER || m.slip < SLIP_LOWER
  }

  function RunOracle(moments: seq<Moment>): real {
    if moments == [] then 0.0
    else
      var m := moments[|moments| - 1];
      OracleCommand(RunOracle(moments[..|moments| - 1]), m.slip, m.v, m.request)
  }

  /** Cycle `j` is the last one that decided. */
  ghost predicate LastDecision(moments: seq<Moment>, j: nat) {
    j < |moments| && Decides(moments[j]) && forall k :: j < k < |moments| ==> !Decides(moments[k])
  }

  /**
   The command is the outcome of the last deciding cycle: released if the wheel was slipping at
   speed, else the pedal of that cycle; and the initial zero if no cycle has decided yet.
   */
  lemma {:induction false} CommandIsLastDecision(moments: seq<Moment>)
    ensures forall j: nat :: LastDecision(moments, j) ==>
              var m := moments[j];
              RunOracle(moments) == if m.v >= LOW_SPEED_BYPASS && m.slip > SLIP_UPPER then 0.0 else m.request
    ensures (forall k :: 0 <= k < |moments| ==> !Decides(moments[k])) ==> RunOracle(moments) == 0.0
  {
    if moments != [] {
      var n := |moments| - 1;
      var init := moments[..n];
      CommandIsLastDecision(init);
      assert forall k :: 0 <= k < n ==> init[k] == moments[k];
      forall j: nat | LastDecision(moments, j)
        ensures var m := moments[j];
                RunOracle(moments) == if m.v >= LOW_SPEED_BYPASS && m.slip > SLIP_UPPER then 0.0 else m.request
      {
        if j < n {
          assert LastDecision(init, j);
          assert !Decides(moments[n]);
        }
      }
    }
  }

  // ---- fault-free runs of both ----

  /** What the road dictates: speed and brake pressure. */
  datatype Road = Road(v: real, brake: real)

  /** What is free at each cycle: the slip ratio and the pedal. */
  datatype Drive = Drive(slip: real, request: real)

  datatype Pair = Pair(fsm: AbsState.Fsm, ecu: real, oracle: real)

  const START := Pair(AbsState.INITIAL, 0.0, 0.0)

  predicate InRange(road: seq<Road>) {
    forall r <- road :: -1.0 <= r.v <= 120.0
  }

  function InputOf(r: Road, d: Drive): AbsState.Input {
    AbsState.Input(Sample(r.v, 0.0, r.brake, true, true), d.slip, {})
  }

  function Both(p: Pair, r: Road, d: Drive): Pair {
    var fsm := AbsState.Step(p.fsm, InputOf(r, d));
    Pair(fsm, Command(p.ecu, fsm.current, r.v, d.slip, d.request),
         OracleCommand(p.oracle, d.slip, r.v, d.request))
  }

  function RunBoth(road: seq<Road>, drive: seq<Drive>): Pair
    requires |road| == |drive|
  {
    if road == [] then START
    else
      var n := |road| - 1;
      Both(RunBoth(road[..n], drive[..n]), road[n], drive[n])
  }

  /** Both controllers command the same at every cycle of the run. */
  ghost predicate Agree(road: seq<Road>, drive: seq<Drive>)
    requires |road| == |drive|
  {
    forall n :: 0 <= n <= |road| ==>
      var p := RunBoth(road[..n], drive[..n]);
      p.ecu == p.oracle
  }

  /** Whether the ECU is in standby after a stretch of road: the slip plays no part in it. */
  predicate InStandby(road: seq<Road>) {
    if road == [] then false
    else
      var r := road[|road| - 1];
      r.v < LOW_SPEED_BYPASS ||
      (InStandby(road[..|road| - 1]) && !(r.brake > AbsState.BRAKE_ACTIVE))
  }

  /** The vehicle is above walking pace again but nobody brakes: the ECU stays in standby. */
  predicate Coasting(road: seq<Road>) {
    road != [] && road[|road| - 1].v >= LOW_SPEED_BYPASS && InStandby(road)
  }

  ghost predicate NeverCoasting(road: seq<Road>) {
    forall n :: 0 <= n <= |road| ==> !Coasting(road[..n])
  }

  lemma {:induction false} StandbyIsRoad(road: seq<Road>, drive: seq<Drive>)
    requires |road| == |drive| && InRange(road)
    ensures var m := RunBoth(road, drive).fsm;
            && (road != [] ==> m.current in {STANDBY, MONITOR, ACTIVE})
            && (m.current == STANDBY <==> InStandby(road))
  {
    if road != [] {
      var n := |road| - 1;
      assert forall r <- road[..n] :: r in road;
      StandbyIsRoad(road[..n], drive[..n]);
      assert road[n] in road;
    }
  }

  lemma {:induction false} SameUnlessCoasting(road: seq<Road>, drive: seq<Drive>)
    requires |road| == |drive| && InRange(road) && NeverCoasting(road)
    ensures RunBoth(road, drive).ecu == RunBoth(road, drive).oracle
  {
    if road != [] {
      var n := |road| - 1;
      forall k | 0 <= k <= n ensures !Coasting(road[..n][..k]) {
        assert road[..n][..k] == road[..k];
      }
      assert forall r <- road[..n] :: r in road;
      SameUnlessCoasting(road[..n], drive[..n]);
      StandbyIsRoad(road, drive);
      assert road[..|road|] == road;
      assert !Coasting(road);
    }
  }

  /** A drive that keeps the slip at zero until the last cycle, where the wheel locks. */
  function LateLock(n: nat): seq<Drive> {
    if n == 0 then [] else seq(n - 1, _ => Drive(0.0, 0.0)) + [Drive(1.0, 100.0)]
  }

  lemma PrefixNeverCoasts(road: seq<Road>, n: nat)
    requires n <= |road| && NeverCoasting(road) && InRange(road)
    ensures NeverCoasting(road[..n]) && InRange(road[..n])
  {
    forall k | 0 <= k <= n ensures !Coasting(road[..n][..k]) {
      assert road[..n][..k] == road[..k];
    }
    assert forall r <- road[..n] :: r in road;
  }

  lemma NeverCoastingAgrees(road: seq<Road>, drive: seq<Drive>)
    requires |road| == |drive| && InRange(road) && NeverCoasting(road)
    ensures Agree(road, drive)
  {
    forall n | 0 <= n <= |road|
      ensures RunBoth(road[..n], drive[..n]).ecu == RunBoth(road[..n], drive[..n]).oracle
    {
      PrefixNeverCoasts(road, n);
      SameUnlessCoasting(road[..n], drive[..n]);
    }
  }

  /** Where the ECU coasts, a locked wheel tells the two apart. */
  lemma CoastingDisagrees(road: seq<Road>, n: nat) returns (drive: seq<Drive>)
    requires InRange(road) && n <= |road| && Coasting(road[..n])
    ensures |drive| == |road| && !Agree(road, drive)
  {
    drive := LateLock(n) + seq(|road| - n, _ => Drive(0.0, 0.0));
    assert drive[..n] == LateLock(n);
    assert forall r <- road[..n] :: r in road;
    StandbyIsRoad(road[..n], drive[..n]);
    LateLockDiffers(road[..n]);
  }

  lemma LateLockDiffers(road: seq<Road>)
    requires InRange(road) && Coasting(road)
    ensures var p := RunBoth(road, LateLock(|road|)); p.ecu == 100.0 && p.oracle == 0.0
  {
    StandbyIsRoad(road, LateLock(|road|));
  }

  /**
   The two controllers are interchangeable on a road exactly when the ECU never coasts on it:
   only then do they agree for every slip and every pedal.
   */
  lemma EquivalentIffNeverCoasting(road: seq<Road>)
    requires InRange(road)
    ensures NeverCoasting(road) <==>
            forall drive: seq<Drive> :: |drive| == |road| ==> Agree(road, drive)
  {
    hide Agree;
    if NeverCoasting(road) {
      forall drive: seq<Drive> | |drive| == |road| ensures Agree(road, drive) {
        NeverCoastingAgrees(road, drive);
      }
    } else {
      var n :| 0 <= n <= |road| && Coasting(road[..n]);
      var drive := CoastingDisagrees(road, n);
    }
  }

  /** In particular: a vehicle whose speed never climbs back over the bypass never coasts. */
  ghost predicate NeverBackUp(road: seq<Road>) {
    forall i, j :: 0 <= i < j < |road| && road[i].v < LOW_SPEED_BYPASS ==> road[j].v < LOW_SPEED_BYPASS
  }

  lemma {:induction false} StandbyWasSlow(road: seq<Road>)
    requires InStandby(road)
    ensures exists i :: 0 <= i < |road| && road[i].v < LOW_SPEED_BYPASS
  {
    var n := |road| - 1;
    if road[n].v >= LOW_SPEED_BYPASS {
      StandbyWasSlow(road[..n]);
      var i :| 0 <= i < n && road[..n][i].v < LOW_SPEED_BYPASS;
      assert road[i].v < LOW_SPEED_BYPASS;
    }
  }

  lemma StoppingIsEquivalent(road: seq<Road>, drive: seq<Drive>)
    requires |road| == |drive| && InRange(road) && NeverBackUp(road)
    ensures Agree(road, drive)
  {
    forall n | 0 <= n <= |road| ensures !Coasting(road[..n]) {
      if InStandby(road[..n]) {
        StandbyWasSlow(road[..n]);
        var i :| 0 <= i < n && road[..n][i].v < LOW_SPEED_BYPASS;
        assert road[n - 1].v < LOW_SPEED_BYPASS;
      }
    }
    EquivalentIffNeverCoasting(road);
  }
}
