/** The composer: a list of faults applied in order to every frame and to every wire string. */
module FaultChain {
  import opened Wrappers
  import opened UInt32
  import opened Protocol
  import opened FaultInjector
  import opened Sensors
  import AbsState
  import Ecu
  import EcuRuns

  /** A fault with its state. The noise fault and the ice patch are not part of the chain. */
  datatype Fault =
    | Stuck(window: Window, frozen: Option<real>)
    | OutOfRange(window: Window, bad: real)
    | CommLoss(window: Window)
    | Corruption(window: Window, everyN: int, offset: int, counter: nat)

  function OnSensor(f: Fault, frame: SensorFrame, t: real): (Fault, Option<SensorFrame>) {
    match f
    case Stuck(w, frozen) =>
      (f.(frozen := Hold(w, frozen, Timed(frame, t))), Some(Shown(w, frozen, Timed(frame, t))))
    case OutOfRange(w, bad) =>
      (f, Some(if Active(w, t) then frame.(omega := bad, flags := frame.flags + {InjectedRange}) else frame))
    case CommLoss(w) => (f, if Active(w, t) then None else Some(frame))
    case Corruption(_, _, _, _) => (f, Some(frame))
  }

  /** The chain stops at the first fault that drops the frame; later faults are not consulted. */
  function Filter(faults: seq<Fault>, frame: SensorFrame, t: real): (r: (seq<Fault>, Option<SensorFrame>))
    ensures |r.0| == |faults|
  {
    if faults == [] then ([], Some(frame))
    else
      var (f, out) := OnSensor(faults[0], frame, t);
      if out.None? then ([f] + faults[1..], None)
      else
        var (fs, last) := Filter(faults[1..], out.value, t);
        ([f] + fs, last)
  }

  class Injector {
    var faults: seq<Fault>

    constructor ()
      ensures faults == []
    {
      faults := [];
    }

    method Add(fault: Fault)
      modifies this
      ensures faults == old(faults) + [fault]
    {
      faults := faults + [fault];
    }

    method FilterSensor(frame: SensorFrame, t: real) returns (out: Option<SensorFrame>)
      modifies this
      ensures (faults, out) == Filter(old(faults), frame, t)
    {
      hide Filter, OnSensor;
      out := Some(frame);
      ghost var all := faults;
      var i := 0;
      assert all[0..] == all && faults[..0] + Filter(all, frame, t).0 == Filter(all, frame, t).0;
      while i < |faults|
        invariant 0 <= i <= |faults| == |all| && out.Some?
        invariant OnCourse(all, faults, i, frame, out.value, t)
      {
        FilterProgress(all, faults, i, frame, out.value, t);
        var (f, next) := OnSensor(faults[i], out.value, t);
        faults := faults[i := f];
        out := next;
        if out.None? {
          return;
        }
        i := i + 1;
      }
      FilterDone(all, faults, frame, out.value, t);
    }

    /** Only corruption faults touch the wire; an error of one of them ends the loop. */
    method FilterWire(wire: seq<byte>, t: real) returns (out: Result<seq<byte>, MutateError>)
      modifies this
      ensures (faults, out) == OverWire(old(faults), wire, t)
    {
      hide OverWire, OnWire;
      out := Ok(wire);
      ghost var all := faults;
      var i := 0;
      assert all[0..] == all && faults[..0] + OverWire(all, wire, t).0 == OverWire(all, wire, t).0;
      while i < |faults|
        invariant 0 <= i <= |faults| == |all| && out.Ok?
        invariant OnCourseOverWire(all, faults, i, wire, out.value, t)
      {
        OverWireProgress(all, faults, i, wire, out.value, t);
        var (f, next) := OnWire(faults[i], out.value, t);
        faults := faults[i := f];
        out := next;
        if out.Err? {
          return;
        }
        i := i + 1;
      }
      OverWireDone(all, faults, wire, out.value, t);
    }
  }

  /** After `i` faults: those are updated, the rest is to be applied to the frame `cur`. */
  ghost predicate OnCourse(all: seq<Fault>, now: seq<Fault>, i: nat, frame: SensorFrame, cur: SensorFrame, t: real) {
    && i <= |all| == |now|
    && now[i..] == all[i..]
    && Filter(all, frame, t).0 == now[..i] + Filter(all[i..], cur, t).0
    && Filter(all, frame, t).1 == Filter(all[i..], cur, t).1
  }

  lemma FilterProgress(all: seq<Fault>, now: seq<Fault>, i: nat, frame: SensorFrame, cur: SensorFrame, t: real)
    requires i < |all| && OnCourse(all, now, i, frame, cur, t)
    ensures now[i] == all[i]
    ensures var (f, next) := OnSensor(all[i], cur, t);
            var later := now[i := f];
            if next.None? then Filter(all, frame, t) == (later, None)
            else OnCourse(all, later, i + 1, frame, next.value, t)
  {
    hide Filter, OnSensor;
    assert now[i..][0] == all[i..][0];
    var (f, next) := OnSensor(all[i], cur, t);
    var later := now[i := f];
    FilterStep(all[i..], cur, t);
    assert all[i..][1..] == all[i + 1..] == now[i..][1..] == later[i + 1..];
    if next.None? {
      assert later == now[..i] + ([f] + all[i + 1..]);
    } else {
      var fs := Filter(all[i + 1..], next.value, t).0;
      assert now[..i] + ([f] + fs) == later[..i + 1] + fs;
    }
  }

  lemma FilterDone(all: seq<Fault>, now: seq<Fault>, frame: SensorFrame, cur: SensorFrame, t: real)
    requires OnCourse(all, now, |all|, frame, cur, t)
    ensures Filter(all, frame, t) == (now, Some(cur))
  {
    assert all[|all|..] == [] && now[..|all|] + [] == now;
  }

  lemma FilterStep(faults: seq<Fault>, frame: SensorFrame, t: real)
    requires faults != []
    ensures var (f, out) := OnSensor(faults[0], frame, t);
            Filter(faults, frame, t) ==
            if out.None? then ([f] + faults[1..], None)
            else var (fs, last) := Filter(faults[1..], out.value, t); ([f] + fs, last)
  {
  }

  /** A fault that drops every frame at time `t`. */
  predicate Drops(f: Fault, t: real) {
    f.CommLoss? && Active(f.window, t)
  }

  /** A frame is dropped exactly when some communication loss in the chain is active. */
  lemma {:induction false} DroppedIffLoss(faults: seq<Fault>, frame: SensorFrame, t: real)
    ensures Filter(faults, frame, t).1.None? <==> exists k :: 0 <= k < |faults| && Drops(faults[k], t)
  {
    if faults != [] {
      FilterStep(faults, frame, t);
      var (f, out) := OnSensor(faults[0], frame, t);
      if out.None? {
        assert Drops(faults[0], t);
      } else {
        DroppedIffLoss(faults[1..], out.value, t);
        if Filter(faults, frame, t).1.None? {
          var k :| 0 <= k < |faults| - 1 && Drops(faults[1..][k], t);
          assert Drops(faults[k + 1], t);
        }
        if exists k :: 0 <= k < |faults| && Drops(faults[k], t) {
          var k :| 0 <= k < |faults| && Drops(faults[k], t);
          assert Drops(faults[1..][k - 1], t);
        }
      }
    }
  }

  /** The chain touches nothing but the wheel speed and the informative flags. */
  lemma {:induction false} OnlyWheelSpeed(faults: seq<Fault>, frame: SensorFrame, t: real)
    ensures var out := Filter(faults, frame, t).1;
            out.Some? ==>
              && out.value.v == frame.v && out.value.brake == frame.brake
              && out.value.timestamp == frame.timestamp && frame.flags <= out.value.flags
  {
    if faults != [] {
      var out := OnSensor(faults[0], frame, t).1;
      if out.Some? {
        OnlyWheelSpeed(faults[1..], out.value, t);
      }
    }
  }

  /** Faults behind an active communication loss keep their state: they have not seen the frame. */
  lemma {:induction false} BehindLossUntouched(faults: seq<Fault>, frame: SensorFrame, t: real, k: nat)
    requires k < |faults| && Drops(faults[k], t)
    ensures Filter(faults, frame, t).0[k..] == faults[k..]
  {
    FilterStep(faults, frame, t);
    var (f, out) := OnSensor(faults[0], frame, t);
    var after := Filter(faults, frame, t).0;
    if out.None? {
      assert after == faults;
    } else {
      BehindLossUntouched(faults[1..], out.value, t, k - 1);
      assert after[k..] == Filter(faults[1..], out.value, t).0[k - 1..];
      assert faults[1..][k - 1..] == faults[k..];
    }
  }

  // ---- communication loss end to end ----

  function TickOf(out: Option<SensorFrame>, crcTotal: uint32, request: real): Ecu.Tick {
    match out
    case None => Ecu.Tick(None, crcTotal, request)
    case Some(s) => Ecu.Tick(Some(Sample(s.v, s.omega, s.brake, true, true)), crcTotal, request)
  }

  /**
   With an active communication loss anywhere in the chain, whatever the other faults do and
   whatever happened before: the pedal passes from the sixth cycle, and from the fifteenth the
   ECU is latched.
   */
  lemma CommLossEndToEnd(chains: seq<seq<Fault>>, frames: seq<Timed>, before: seq<Ecu.Tick>,
                         gap: seq<Ecu.Tick>, k: nat)
    requires |chains| == |frames| == |gap| && k < |gap|
    requires before == [] || before[|before| - 1].read.Some?
    requires forall j :: 0 <= j < |gap| ==>
               (exists i :: 0 <= i < |chains[j]| && Drops(chains[j][i], frames[j].t)) &&
               gap[j] == TickOf(Filter(chains[j], frames[j].frame, frames[j].t).1,
                                gap[j].crcTotal, gap[j].request)
    ensures var o := Ecu.OutputAt(Ecu.INITIAL, before + gap, |before| + k);
            && (k >= 5 ==> o.command == gap[k].request)
            && (k >= 14 ==> o.status == FAULT_LATCHED)
  {
    hide Filter;
    forall j | 0 <= j < |gap| ensures gap[j].read == None {
      DroppedIffLoss(chains[j], frames[j].frame, frames[j].t);
    }
    assert EcuRuns.AllMissed(gap);
    EcuRuns.CommunicationLoss(before, gap, k);
  }

  // ---- the wire side ----

  function OnWire(f: Fault, wire: seq<byte>, t: real): (Fault, Result<seq<byte>, MutateError>) {
    if f.Corruption? && Active(f.window, t) then
      (f.(counter := f.counter + 1), Mutated(wire, f.counter + 1, f.everyN, f.offset))
    else (f, Ok(wire))
  }

  /** The wire behind all faults, and the faults with their counters. */
  function OverWire(faults: seq<Fault>, wire: seq<byte>, t: real): (r: (seq<Fault>, Result<seq<byte>, MutateError>))
    ensures |r.0| == |faults|
  {
    if faults == [] then ([], Ok(wire))
    else
      var (f, out) := OnWire(faults[0], wire, t);
      match out
      case Err(e) => ([f] + faults[1..], Err(e))
      case Ok(w) =>
        var (fs, last) := OverWire(faults[1..], w, t);
        ([f] + fs, last)
  }

  lemma OverWireStep(faults: seq<Fault>, wire: seq<byte>, t: real)
    requires faults != []
    ensures var (f, out) := OnWire(faults[0], wire, t);
            OverWire(faults, wire, t) ==
            if out.Err? then ([f] + faults[1..], Err(out.error))
            else var (fs, last) := OverWire(faults[1..], out.value, t); ([f] + fs, last)
  {
  }

  ghost predicate OnCourseOverWire(all: seq<Fault>, now: seq<Fault>, i: nat, wire: seq<byte>, cur: seq<byte>, t: real) {
    && i <= |all| == |now|
    && now[i..] == all[i..]
    && OverWire(all, wire, t).0 == now[..i] + OverWire(all[i..], cur, t).0
    && OverWire(all, wire, t).1 == OverWire(all[i..], cur, t).1
  }

  lemma OverWireProgress(all: seq<Fault>, now: seq<Fault>, i: nat, wire: seq<byte>, cur: seq<byte>, t: real)
    requires i < |all| && OnCourseOverWire(all, now, i, wire, cur, t)
    ensures now[i] == all[i]
    ensures var (f, next) := OnWire(all[i], cur, t);
            var later := now[i := f];
            if next.Err? then OverWire(all, wire, t) == (later, next)
            else OnCourseOverWire(all, later, i + 1, wire, next.value, t)
  {
    hide OverWire, OnWire;
    assert now[i..][0] == all[i..][0];
    var (f, next) := OnWire(all[i], cur, t);
    var later := now[i := f];
    OverWireStep(all[i..], cur, t);
    assert all[i..][1..] == all[i + 1..] == now[i..][1..] == later[i + 1..];
    if next.Err? {
      assert later == now[..i] + ([f] + all[i + 1..]);
    } else {
      var fs := OverWire(all[i + 1..], next.value, t).0;
      assert now[..i] + ([f] + fs) == later[..i + 1] + fs;
    }
  }

  lemma OverWireDone(all: seq<Fault>, now: seq<Fault>, wire: seq<byte>, cur: seq<byte>, t: real)
    requires OnCourseOverWire(all, now, |all|, wire, cur, t)
    ensures OverWire(all, wire, t) == (now, Ok(cur))
  {
    assert all[|all|..] == [] && now[..|all|] + [] == now;
  }

  /** Corruption changes bytes but never the length of what is sent. */
  lemma {:induction false} WireLengthKept(faults: seq<Fault>, wire: seq<byte>, t: real)
    ensures var r := OverWire(faults, wire, t).1; r.Ok? ==> |r.value| == |wire|
  {
    if faults != [] {
      OverWireStep(faults, wire, t);
      var r := OnWire(faults[0], wire, t).1;
      if r.Ok? {
        WireLengthKept(faults[1..], r.value, t);
      }
    }
  }

  // ---- what one fault does ----

  /** From the first to the last second of the window, both included; no end means for ever. */
  predicate During(w: Window, t: real) {
    match w
    case Window(start, None) => t >= start
    case Window(start, Some(end)) => start <= t <= end
  }

  /** What a single fault makes of a frame, inside and outside its window. */
  lemma OneFault(f: Fault, frame: SensorFrame, t: real)
    ensures var (after, out) := OnSensor(f, frame, t);
            if !During(f.window, t) then
              out == Some(frame) && after == if f.Stuck? then f.(frozen := None) else f
            else
              match f
              case Stuck(_, None) =>
                && out == Some(frame.(flags := frame.flags + {InjectedStuck}))
                && after == f.(frozen := Some(frame.omega))
              case Stuck(_, Some(held)) =>
                && out == Some(frame.(omega := held, flags := frame.flags + {InjectedStuck}))
                && after == f
              case OutOfRange(_, bad) =>
                && out == Some(frame.(omega := bad, flags := frame.flags + {InjectedRange}))
                && after == f
              case CommLoss(_) => out == None && after == f
              case Corruption(_, _, _, _) => out == Some(frame) && after == f
  {
  }

  lemma InvertedInNumbers(x: byte)
    ensures (x ^ 0xFF) as int == 255 - x as int
  {
  }

  /** The byte that an offset names: counted from the end if it is negative. */
  function Named(offset: int, n: nat): int {
    if offset < 0 then n + offset else offset
  }

  /** In this call the fault inverts a byte, if there is one where it points. */
  predicate Strikes(f: Fault, n: nat, t: real)
    requires f.Corruption? && f.everyN != 0
  {
    During(f.window, t) && (f.counter + 1) % f.everyN == 0 && f.offset < n - 2
  }

  /**
   What a corruption fault makes of a wire. Outside its window, nothing. Inside, it counts the call;
   a rate of zero is an error; every `everyN`-th wire that reaches beyond the offset and two CRC
   bytes has the named byte inverted, and an offset before its start is an error.
   */
  lemma OneFaultOnWire(f: Fault, wire: seq<byte>, t: real)
    requires f.Corruption?
    ensures var (after, out) := OnWire(f, wire, t);
            && after == (if During(f.window, t) then f.(counter := f.counter + 1) else f)
            && (out == Err(ZeroDivision) <==> During(f.window, t) && f.everyN == 0)
            && (out == Err(IndexOutOfRange) <==>
                  f.everyN != 0 && Strikes(f, |wire|, t) && Named(f.offset, |wire|) < 0)
            && (out.Ok? ==>
                  |out.value| == |wire| && forall k :: 0 <= k < |wire| ==>
                    out.value[k] as int ==
                    if f.everyN != 0 && Strikes(f, |wire|, t) && k == Named(f.offset, |wire|)
                    then 255 - wire[k] as int else wire[k] as int)
  {
    var i := Named(f.offset, |wire|);
    if 0 <= i < |wire| {
      InvertedInNumbers(wire[i]);
    }
  }

  /** Faults of the other kinds never touch a wire. */
  lemma OthersLeaveWire(f: Fault, wire: seq<byte>, t: real)
    requires !f.Corruption? || !During(f.window, t)
    ensures OnWire(f, wire, t) == (f, Ok(wire))
  {
  }

  /** In a chain with one active corruption the wire is what that one makes of it. */
  lemma {:induction false} OneCorruptionInChain(faults: seq<Fault>, wire: seq<byte>, t: real, i: nat)
    requires i < |faults|
    requires forall k :: 0 <= k < |faults| && k != i ==> !faults[k].Corruption? || !During(faults[k].window, t)
    ensures var (after, out) := OnWire(faults[i], wire, t);
            OverWire(faults, wire, t) == (faults[i := after], out)
    decreases |faults|
  {
    hide OnWire, During;
    OverWireStep(faults, wire, t);
    if i > 0 {
      OthersLeaveWire(faults[0], wire, t);
      OneCorruptionInChain(faults[1..], wire, t, i - 1);
      var after := OnWire(faults[i], wire, t).0;
      assert [faults[0]] + faults[1..][i - 1 := after] == faults[i := after];
    } else {
      var (after, out) := OnWire(faults[0], wire, t);
      assert [after] + faults[1..] == faults[0 := after];
      if out.Ok? {
        WireUntouched(faults[1..], out.value, t);
      }
    }
  }

  lemma {:induction false} WireUntouched(faults: seq<Fault>, wire: seq<byte>, t: real)
    requires forall k :: 0 <= k < |faults| ==> !faults[k].Corruption? || !During(faults[k].window, t)
    ensures OverWire(faults, wire, t) == (faults, Ok(wire))
  {
    hide OnWire, During;
    if faults != [] {
      OverWireStep(faults, wire, t);
      OthersLeaveWire(faults[0], wire, t);
      WireUntouched(faults[1..], wire, t);
      assert [faults[0]] + faults[1..] == faults;
    }
  }

  /** While no fault is active the ECU gets what the plant measured, and no fault holds anything. */
  lemma {:induction false} QuietChain(faults: seq<Fault>, frame: SensorFrame, t: real, crcTotal: uint32, request: real)
    requires forall k :: 0 <= k < |faults| ==> !During(faults[k].window, t)
    ensures var (after, out) := Filter(faults, frame, t);
            && out == Some(frame)
            && (forall k :: 0 <= k < |faults| ==>
                  after[k] == if faults[k].Stuck? then faults[k].(frozen := None) else faults[k])
            && TickOf(out, crcTotal, request) ==
               Ecu.Tick(Some(Sample(frame.v, frame.omega, frame.brake, true, true)), crcTotal, request)
  {
    hide OnSensor, During;
    if faults != [] {
      FilterStep(faults, frame, t);
      OneFault(faults[0], frame, t);
      QuietChain(faults[1..], frame, t, crcTotal, request);
    }
  }

  // ---- an aberrant value end to end ----

  /** The fault puts a wheel speed of its own into the frame. */
  predicate Sets(f: Fault, t: real) {
    (f.Stuck? || f.OutOfRange?) && During(f.window, t)
  }

  lemma {:induction false} WheelSpeedPasses(faults: seq<Fault>, frame: SensorFrame, t: real)
    requires forall k :: 0 <= k < |faults| ==> !Sets(faults[k], t)
    ensures var out := Filter(faults, frame, t).1;
            out.Some? ==> out.value.omega == frame.omega
  {
    hide OnSensor;
    if faults != [] {
      FilterStep(faults, frame, t);
      OneFault(faults[0], frame, t);
      var out := OnSensor(faults[0], frame, t).1;
      if out.Some? {
        WheelSpeedPasses(faults[1..], out.value, t);
      }
    }
  }

  /** What arrives shows the wheel speed of the last fault that sets one. */
  lemma {:induction false} LastSetterShows(faults: seq<Fault>, frame: SensorFrame, t: real, i: nat)
    requires i < |faults| && faults[i].OutOfRange? && During(faults[i].window, t)
    requires forall k :: i < k < |faults| ==> !Sets(faults[k], t)
    ensures var out := Filter(faults, frame, t).1;
            out.Some? ==> out.value.omega == faults[i].bad
  {
    hide OnSensor, During;
    FilterStep(faults, frame, t);
    OneFault(faults[0], frame, t);
    var out := OnSensor(faults[0], frame, t).1;
    if out.Some? {
      if i > 0 {
        LastSetterShows(faults[1..], out.value, t, i - 1);
      } else {
        WheelSpeedPasses(faults[1..], out.value, t);
      }
    }
  }

  /** The chain lets the frame through and the last wheel speed it sets is aberrant. */
  ghost predicate ShowsAberrant(faults: seq<Fault>, t: real, i: nat) {
    && i < |faults| && faults[i].OutOfRange? && During(faults[i].window, t)
    && (faults[i].bad < -1.0 || faults[i].bad > 500.0)
    && (forall k :: i < k < |faults| ==> !Sets(faults[k], t))
    && (forall k :: 0 <= k < |faults| ==> !Drops(faults[k], t))
  }

  lemma AberrantIsRange(faults: seq<Fault>, f: Timed, tick: Ecu.Tick, e: Ecu.State, i: nat)
    requires ShowsAberrant(faults, f.t, i)
    requires tick == TickOf(Filter(faults, f.frame, f.t).1, tick.crcTotal, tick.request)
    ensures SensorRange in Ecu.OutputOf(e, tick).dtc
  {
    hide Filter, During, Ecu.OutputOf;
    DroppedIffLoss(faults, f.frame, f.t);
    LastSetterShows(faults, f.frame, f.t, i);
    EcuRuns.FreshIsUsed(e, tick);
    EcuRuns.RangeAndNoise(e, tick);
  }

  lemma AberrantCycle(faults: seq<Fault>, f: Timed, before: seq<Ecu.Tick>, ticks: seq<Ecu.Tick>, j: nat, i: nat)
    requires j < |ticks| && ShowsAberrant(faults, f.t, i)
    requires ticks[j] == TickOf(Filter(faults, f.frame, f.t).1, ticks[j].crcTotal, ticks[j].request)
    ensures var o := Ecu.OutputAt(Ecu.INITIAL, before + ticks, |before| + j);
            SensorRange in o.dtc && o.command == ticks[j].request
    ensures AbsState.Faulty(Ecu.InputAt(Ecu.INITIAL, before + ticks, |before| + j))
  {
    hide Filter, ShowsAberrant, Ecu.OutputOf, Ecu.InputOf, Ecu.Cycle, AbsState.Faulty;
    var e := Ecu.Run(Ecu.INITIAL, before);
    Ecu.OutputConcat(Ecu.INITIAL, before, ticks, j);
    AberrantIsRange(faults, f, ticks[j], Ecu.Run(e, ticks[..j]), i);
    EcuRuns.DtcIsFault(e, ticks, j, SensorRange);
    EcuRuns.FaultyPassesPedal(Ecu.Run(e, ticks[..j]), ticks[j]);
  }

  /**
   With an active range fault in the chain that no later fault hides, whatever the others do and
   whatever happened before: the range code is raised and the pedal passes in every cycle, and from
   the tenth the ECU is latched.
   */
  lemma RangeFaultEndToEnd(chains: seq<seq<Fault>>, frames: seq<Timed>, before: seq<Ecu.Tick>,
                           ticks: seq<Ecu.Tick>, k: nat)
    requires |chains| == |frames| == |ticks| && k < |ticks|
    requires forall j :: 0 <= j < |ticks| ==>
               (exists i: nat :: ShowsAberrant(chains[j], frames[j].t, i)) &&
               ticks[j] == TickOf(Filter(chains[j], frames[j].frame, frames[j].t).1,
                                  ticks[j].crcTotal, ticks[j].request)
    ensures var o := Ecu.OutputAt(Ecu.INITIAL, before + ticks, |before| + k);
            && SensorRange in o.dtc && o.command == ticks[k].request
            && (k >= 9 ==> o.status == FAULT_LATCHED)
  {
    hide Filter, ShowsAberrant, Ecu.OutputAt, Ecu.InputAt, AbsState.Faulty;
    var i: nat :| ShowsAberrant(chains[k], frames[k].t, i);
    AberrantCycle(chains[k], frames[k], before, ticks, k, i);
    if k >= 9 {
      forall j | |before| <= j < |before| + 10
        ensures AbsState.Faulty(Ecu.InputAt(Ecu.INITIAL, before + ticks, j))
      {
        var m: nat := j - |before|;
        var i: nat :| ShowsAberrant(chains[m], frames[m].t, i);
        AberrantCycle(chains[m], frames[m], before, ticks, m, i);
      }
      EcuRuns.LatchedAfterTenFaults(before + ticks, |before|, |before| + k);
    }
  }
}
