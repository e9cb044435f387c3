/**
 One sensor sample as the ECU sees it. Timestamps and the injector's informative flags are not
 read by the control code and are not modelled.
 */
module Sensors {

  /**
   `finite` says that speed and wheel speed are both finite. A sample that is not finite carries
   real numbers that compare with the thresholds as the NaN or infinity does.
   */
  datatype Sample = Sample(v: real, omega: real, brake: real, finite: bool, valid: bool)

  /** The zero-initialised structure the main loop starts with. */
  const BLANK := Sample(0.0, 0.0, 0.0, true, false)

  datatype EcuStatus = INIT | STANDBY | MONITOR | ACTIVE | FAULT_DEGRADED | FAULT_LATCHED

  /** The bits of the diagnostic trouble code; a code is the set of its bits. */
  datatype Dtc = SensorStuck | SensorNoise | CommTimeout | CommCrc | SensorRange | Implausible

  const LOW_SPEED_BYPASS: real := 5.0 / 3.6
  const SLIP_UPPER: real := 0.20
  const SLIP_LOWER: real := 0.10
}
