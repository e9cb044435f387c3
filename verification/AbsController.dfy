/** The brake command: pedal pass-through, or bang-bang on the slip ratio with hysteresis. */
module AbsController {
  import opened Sensors

  /** Slip ratio, zero below `vMin` and clamped to [0, 1]. */
  function SlipProtected(v: real, omega: real, radius: real, vMin: real): (s: real)
    requires vMin > 0.0
    ensures 0.0 <= s <= 1.0
    ensures -vMin < v < vMin ==> s == 0.0
    ensures v >= vMin ==> (s < 1.0 ==> s * v >= v - omega * radius) && (s > 0.0 ==> s * v <= v - omega * radius)
  {
    if -vMin < v < vMin then 0.0
    else
      var s := (v - omega * radius) / v;
      if s < 0.0 then 0.0 else if s > 1.0 then 1.0 else s
  }

  function BangBang(previous: real, slip: real, request: real): real {
    if slip > SLIP_UPPER then 0.0 else if slip < SLIP_LOWER then request else previous
  }

  predicate PassThrough(state: EcuStatus, v: real) {
    state in {FAULT_DEGRADED, FAULT_LATCHED, INIT, STANDBY} || v < LOW_SPEED_BYPASS
  }

  function Command(previous: real, state: EcuStatus, v: real, slip: real, request: real): real {
    if PassThrough(state, v) then request else BangBang(previous, slip, request)
  }

  /** Below 5 km/h, and whenever the ABS is not on guard, the pedal is handed through. */
  lemma HandsOver(previous: real, state: EcuStatus, v: real, slip: real, request: real)
    ensures state !in {MONITOR, ACTIVE} || 3.6 * v < 5.0 ==>
              Command(previous, state, v, slip, request) == request
  {
    assert LOW_SPEED_BYPASS * 3.6 == 5.0;
  }

  class Context {
    var previousCommand: real

    constructor ()
      ensures previousCommand == 0.0
    {
      previousCommand := 0.0;
    }

    method Compute(state: EcuStatus, sample: Sample, slip: real, request: real) returns (cmd: real)
      modifies this
      ensures cmd == Command(old(previousCommand), state, sample.v, slip, request)
      ensures previousCommand == cmd
      ensures state !in {MONITOR, ACTIVE} || 3.6 * sample.v < 5.0 ==> cmd == request
    {
      HandsOver(previousCommand, state, sample.v, slip, request);
      if state == FAULT_DEGRADED || state == FAULT_LATCHED {
        previousCommand := request;
        return request;
      }
      if sample.v < LOW_SPEED_BYPASS {
        previousCommand := request;
        return request;
      }
      if state == INIT || state == STANDBY {
        previousCommand := request;
        return request;
      }
      if slip > SLIP_UPPER {
        cmd := 0.0;
      } else if slip < SLIP_LOWER {
        cmd := request;
      } else {
        cmd := previousCommand;
      }
      previousCommand := cmd;
    }
  }
}
