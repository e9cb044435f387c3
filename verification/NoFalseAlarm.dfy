/** The undisturbed plant never trips the plausibility check of the ECU. */
module NoFalseAlarm {
  import opened Sensors
  import Diagnostic
  import Vehicle
  import opened Ecu

  /** The wheel's rim is not faster than the body by more than the tolerance. */
  predicate Calm(s: Sample) {
    s.omega * WHEEL_RADIUS <= s.v + Diagnostic.PLAUSIBILITY_EPSILON
  }

  predicate Quiet(e: State) {
    Calm(e.cur) && Calm(e.lastGood) && e.detectors.implausibleCount == 0
  }

  lemma QuietStep(e: State, t: Tick)
    requires Quiet(e) && (t.read.Some? ==> Calm(t.read.value))
    ensures Quiet(Cycle(e, t)) && Implausible !in OutputOf(e, t).dtc
  {
    var r := Read(e, t);
    assert Calm(ForState(r));
    assert Calm(r.cur) && Calm(r.lastGood);
  }

  lemma {:induction false} QuietRun(ticks: seq<Tick>)
    requires forall k :: 0 <= k < |ticks| && ticks[k].read.Some? ==> Calm(ticks[k].read.value)
    ensures Quiet(Run(INITIAL, ticks))
  {
    hide Cycle, OutputOf, Calm;
    if ticks == [] {
      CalmBlank();
    } else {
      var n := |ticks| - 1;
      QuietRun(ticks[..n]);
      QuietStep(Run(INITIAL, ticks[..n]), ticks[n]);
    }
  }

  lemma CalmBlank()
    ensures Calm(BLANK)
  {
  }

  /** The sample reports some state that the plant passed through. */
  ghost predicate SampledFrom(s: Sample, speed: real, actions: seq<Vehicle.Action>) {
    exists j :: 0 <= j <= |actions| &&
      var p := Vehicle.Drive(Vehicle.FreeRolling(speed), actions[..j]);
      s.v == p.v && s.omega == p.omega
  }

  lemma SampledIsCalm(s: Sample, speed: real, actions: seq<Vehicle.Action>)
    requires speed >= 0.0 && Vehicle.Drivable(actions) && SampledFrom(s, speed, actions)
    ensures Calm(s)
  {
    hide Vehicle.Drive;
    var j :| 0 <= j <= |actions| &&
      var p := Vehicle.Drive(Vehicle.FreeRolling(speed), actions[..j]);
      s.v == p.v && s.omega == p.omega;
    Vehicle.LeadIsBounded(speed, actions[..j]);
  }

  /**
   Starting free-rolling, under every pressure and any change of surface, and however the
   samples reach the ECU, late, repeated or not at all: the code is never raised.
   */
  lemma NoPlausibilityAlarm(speed: real, actions: seq<Vehicle.Action>, ticks: seq<Tick>, k: nat)
    requires speed >= 0.0 && Vehicle.Drivable(actions) && k < |ticks|
    requires forall i :: 0 <= i < |ticks| && ticks[i].read.Some? ==>
               SampledFrom(ticks[i].read.value, speed, actions)
    ensures Implausible !in OutputAt(INITIAL, ticks, k).dtc
  {
    hide Cycle, OutputOf, Calm, SampledFrom;
    forall i | 0 <= i < |ticks| && ticks[i].read.Some? ensures Calm(ticks[i].read.value) {
      SampledIsCalm(ticks[i].read.value, speed, actions);
    }
    QuietRun(ticks[..k]);
    QuietStep(Run(INITIAL, ticks[..k]), ticks[k]);
  }
}
