/** The failure detectors that drive the diagnostic trouble code. */
module Diagnostic {
  import opened UInt32
  import opened Sensors

  const STUCK_THRESHOLD := 10
  const STUCK_V_MIN: real := 1.0
  const PLAUSIBILITY_EPSILON: real := 0.5
  const PLAUSIBILITY_CYCLES := 5
  const CRC_WINDOW := 100
  const CRC_THRESHOLD := 5
  const WATCHDOG_CYCLES := 5

  predicate OutOfRange(s: Sample) {
    s.omega < -1.0 || s.omega > 500.0 || s.v < -1.0 || s.v > 120.0 || !s.finite
  }

  /** Samples whose content is checked: fresh or recent enough, and in range. */
  predicate Accepted(s: Sample) {
    s.valid && !OutOfRange(s)
  }

  datatype Detectors = Detectors(lastOmega: real, lastV: real, stuckCount: uint32,
                                 implausibleCount: uint32,
                                 crcInWindow: uint32, cyclesInWindow: uint32, lastCrcSeen: uint32)

  const INITIAL := Detectors(0.0, 0.0, 0, 0, 0, 0, 0)

  // ---- one detector at a time ----

  predicate Frozen(d: Detectors, s: Sample) {
    s.omega == d.lastOmega && s.v > STUCK_V_MIN
  }

  function Stuck(d: Detectors, s: Sample): Detectors {
    d.(stuckCount := if Frozen(d, s) then Wrap32(d.stuckCount + 1) else 0,
       lastOmega := s.omega, lastV := s.v)
  }

  predicate TooFast(s: Sample, radius: real) {
    s.v >= 1.0 && s.omega * radius > s.v + PLAUSIBILITY_EPSILON
  }

  function Plausibility(d: Detectors, s: Sample, radius: real): Detectors {
    d.(implausibleCount := if TooFast(s, radius) then Wrap32(d.implausibleCount + 1) else 0)
  }

  predicate WindowFull(d: Detectors) {
    Wrap32(d.cyclesInWindow + 1) >= CRC_WINDOW
  }

  predicate RateExceeded(d: Detectors) {
    WindowFull(d) && d.crcInWindow >= CRC_THRESHOLD
  }

  function Window(d: Detectors, total: uint32): Detectors {
    var rolled := if WindowFull(d) then d.(crcInWindow := 0, cyclesInWindow := 0)
                  else d.(cyclesInWindow := Wrap32(d.cyclesInWindow + 1));
    if total > rolled.lastCrcSeen then
      rolled.(crcInWindow := Wrap32(rolled.crcInWindow + (total - rolled.lastCrcSeen)),
              lastCrcSeen := total)
    else rolled
  }

  // ---- all of them ----

  datatype Report = Report(after: Detectors, dtc: set<Dtc>)

  function If(condition: bool, code: Dtc): set<Dtc> {
    if condition then {code} else {}
  }

  /** The link codes come first; the content of a sample is checked only when it is accepted. */
  function Check(d: Detectors, s: Sample, radius: real, missed: uint32, total: uint32): Report {
    var link := If(missed > WATCHDOG_CYCLES, CommTimeout) + If(RateExceeded(d), CommCrc);
    var w := Window(d, total);
    if !s.valid then Report(w, link)
    else if OutOfRange(s) then Report(w, link + {SensorRange})
    else
      var k := Stuck(w, s);
      var p := Plausibility(k, s, radius);
      Report(p, link + If(k.stuckCount >= STUCK_THRESHOLD, SensorStuck)
                     + If(s.v >= 1.0 && p.implausibleCount >= PLAUSIBILITY_CYCLES, Implausible))
  }

  class Context {
    var lastOmega: real
    var lastV: real
    var stuckCount: uint32
    var implausibleCount: uint32
    var crcInWindow: uint32
    var cyclesInWindow: uint32
    var lastCrcSeen: uint32

    ghost function Value(): Detectors
      reads this
    {
      Detectors(lastOmega, lastV, stuckCount, implausibleCount, crcInWindow, cyclesInWindow, lastCrcSeen)
    }

    constructor ()
      ensures Value() == INITIAL
    {
      lastOmega, lastV := 0.0, 0.0;
      stuckCount, implausibleCount, crcInWindow, cyclesInWindow, lastCrcSeen := 0, 0, 0, 0, 0;
    }

    method IsStuck(omega: real, v: real, ghost s: Sample) returns (stuck: bool)
      requires s.omega == omega && s.v == v
      modifies this
      ensures Value() == Stuck(old(Value()), s)
      ensures stuck == (stuckCount >= STUCK_THRESHOLD)
    {
      var frozen := omega == lastOmega;
      var moving := v > STUCK_V_MIN;
      if frozen && moving {
        stuckCount := Wrap32(stuckCount + 1);
      } else {
        stuckCount := 0;
      }
      lastOmega := omega;
      lastV := v;
      stuck := stuckCount >= STUCK_THRESHOLD;
    }

    method IsImplausible(v: real, omega: real, radius: real, ghost s: Sample) returns (r: bool)
      requires s.omega == omega && s.v == v
      modifies this
      ensures Value() == Plausibility(old(Value()), s, radius)
      ensures r == (v >= 1.0 && implausibleCount >= PLAUSIBILITY_CYCLES)
    {
      if v < 1.0 {
        implausibleCount := 0;
        return false;
      }
      if omega * radius > v + PLAUSIBILITY_EPSILON {
        implausibleCount := Wrap32(implausibleCount + 1);
      } else {
        implausibleCount := 0;
      }
      r := implausibleCount >= PLAUSIBILITY_CYCLES;
    }

    /** The CRC window: a new one starts every hundredth call, before new errors are added. */
    method Roll(total: uint32) returns (exceeded: bool)
      modifies this
      ensures Value() == Window(old(Value()), total)
      ensures exceeded == RateExceeded(old(Value()))
    {
      exceeded := false;
      cyclesInWindow := Wrap32(cyclesInWindow + 1);
      if cyclesInWindow >= CRC_WINDOW {
        exceeded := crcInWindow >= CRC_THRESHOLD;
        crcInWindow := 0;
        cyclesInWindow := 0;
      }
      if total > lastCrcSeen {
        crcInWindow := Wrap32(crcInWindow + (total - lastCrcSeen));
        lastCrcSeen := total;
      }
    }

    method CheckAll(s: Sample, radius: real, missed: uint32, total: uint32) returns (dtc: set<Dtc>)
      modifies this
      ensures Check(old(Value()), s, radius, missed, total) == Report(Value(), dtc)
    {
      hide Wrap32, WindowFull, RateExceeded, Window, Frozen, TooFast;
      dtc := {};
      if missed > WATCHDOG_CYCLES {
        dtc := dtc + {CommTimeout};
      }
      var exceeded := Roll(total);
      if exceeded {
        dtc := dtc + {CommCrc};
      }
      if !s.valid {
        return;
      }
      if OutOfRange(s) {
        dtc := dtc + {SensorRange};
        return;
      }
      var stuck := IsStuck(s.omega, s.v, s);
      if stuck {
        dtc := dtc + {SensorStuck};
      }
      var implausible := IsImplausible(s.v, s.omega, radius, s);
      if implausible {
        dtc := dtc + {Implausible};
      }
    }
  }
}
