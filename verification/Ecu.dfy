/** One cycle of the controller's super-loop, and runs of it. */
module Ecu {
  import opened Wrappers
  import opened UInt32
  import opened Sensors
  import AbsState
  import AbsController
  import Diagnostic

  const WHEEL_RADIUS: real := 0.30
  const SLIP_V_MIN: real := 1.0
  const PERIOD_MS := 10
  const WATCHDOG_MS := 50

  /** What a cycle receives: a decoded sample or none, the link's CRC error total, the pedal. */
  datatype Tick = Tick(read: Option<Sample>, crcTotal: uint32, request: real)

  datatype State = State(fsm: AbsState.Fsm, command: real, detectors: Diagnostic.Detectors,
                         lastGood: Sample, cur: Sample, missed: uint32)

  const INITIAL := State(AbsState.INITIAL, 0.0, Diagnostic.INITIAL, BLANK, BLANK, 0)

  datatype Output = Output(status: EcuStatus, command: real, dtc: set<Dtc>)

  // ---- one cycle ----

  function Read(e: State, t: Tick): State {
    match t.read
    case Some(s) =>
      var good := s.(valid := true);
      e.(cur := good, lastGood := good, missed := 0)
    case None => e.(cur := e.cur.(valid := false), missed := Wrap32(e.missed + 1))
  }

  /** The sample the cycle works on: this one, or the last good one while it is recent. */
  function ForState(e: State): Sample {
    if e.cur.valid then e.cur
    else if Wrap32(e.missed * PERIOD_MS) <= WATCHDOG_MS then e.lastGood else e.cur
  }

  function Report(e: State, t: Tick): Diagnostic.Report {
    var r := Read(e, t);
    Diagnostic.Check(r.detectors, ForState(r), WHEEL_RADIUS, r.missed, t.crcTotal)
  }

  function SlipOf(s: Sample): real {
    AbsController.SlipProtected(s.v, s.omega, WHEEL_RADIUS, SLIP_V_MIN)
  }

  /** What the state machine is given in this cycle. */
  function InputOf(e: State, t: Tick): AbsState.Input {
    var s := ForState(Read(e, t));
    AbsState.Input(s, SlipOf(s), Report(e, t).dtc)
  }

  function Cycle(e: State, t: Tick): State {
    var i := InputOf(e, t);
    var fsm := AbsState.Step(e.fsm, i);
    Read(e, t).(fsm := fsm, detectors := Report(e, t).after,
                command := AbsController.Command(e.command, fsm.current, i.sample.v, i.slip, t.request))
  }

  function OutputOf(e: State, t: Tick): Output {
    var after := Cycle(e, t);
    Output(after.fsm.current, after.command, Report(e, t).dtc)
  }

  class SuperLoop {
    const st: AbsState.Context
    const cc: AbsController.Context
    const dg: Diagnostic.Context
    var lastGood: Sample
    var cur: Sample
    var missed: uint32

    ghost function Value(): State
      reads this, st, cc, dg
    {
      State(st.Value(), cc.previousCommand, dg.Value(), lastGood, cur, missed)
    }

    constructor ()
      ensures Value() == INITIAL && fresh(st) && fresh(cc) && fresh(dg)
    {
      st := new AbsState.Context();
      cc := new AbsController.Context();
      dg := new Diagnostic.Context();
      lastGood, cur, missed := BLANK, BLANK, 0;
    }

    method OneCycle(read: Option<Sample>, crcTotal: uint32, request: real) returns (out: Output)
      modifies this, st, cc, dg
      ensures Value() == Cycle(old(Value()), Tick(read, crcTotal, request))
      ensures out == OutputOf(old(Value()), Tick(read, crcTotal, request))
    {
      match read {
        case Some(s) =>
          cur := s.(valid := true);
          lastGood := cur;
          missed := 0;
        case None =>
          missed := Wrap32(missed + 1);
          cur := cur.(valid := false);
      }
      var forState := cur;
      if !cur.valid && Wrap32(missed * PERIOD_MS) <= WATCHDOG_MS {
        forState := lastGood;
      }
      var dtc := dg.CheckAll(forState, WHEEL_RADIUS, missed, crcTotal);
      var slip := AbsController.SlipProtected(forState.v, forState.omega, WHEEL_RADIUS, SLIP_V_MIN);
      var status := st.Update(forState, slip, dtc);
      var cmd := cc.Compute(status, forState, slip, request);
      out := Output(status, cmd, dtc);
    }
  }

  // ---- runs ----

  function Run(e: State, ticks: seq<Tick>): State {
    if ticks == [] then e else Cycle(Run(e, ticks[..|ticks| - 1]), ticks[|ticks| - 1])
  }

  /** The output of cycle `k` of a run. */
  function OutputAt(e: State, ticks: seq<Tick>, k: nat): Output
    requires k < |ticks|
  {
    OutputOf(Run(e, ticks[..k]), ticks[k])
  }

  function InputAt(e: State, ticks: seq<Tick>, k: nat): AbsState.Input
    requires k < |ticks|
  {
    InputOf(Run(e, ticks[..k]), ticks[k])
  }

  /** The inputs of the state machine in a run. */
  function Inputs(e: State, ticks: seq<Tick>): (inputs: seq<AbsState.Input>)
    ensures |inputs| == |ticks|
    ensures forall k :: 0 <= k < |ticks| ==> inputs[k] == InputAt(e, ticks, k)
  {
    seq(|ticks|, k requires 0 <= k < |ticks| => InputAt(e, ticks, k))
  }

  lemma {:induction false} RunConcat(e: State, a: seq<Tick>, b: seq<Tick>)
    ensures Run(e, a + b) == Run(Run(e, a), b)
    decreases |b|
  {
    hide Cycle;
    if b == [] {
      assert a + b == a;
    } else {
      assert (a + b)[..|a + b| - 1] == a + b[..|b| - 1];
      RunConcat(e, a, b[..|b| - 1]);
    }
  }

  lemma OutputConcat(e: State, a: seq<Tick>, b: seq<Tick>, k: nat)
    requires k < |b|
    ensures OutputAt(e, a + b, |a| + k) == OutputAt(Run(e, a), b, k)
    ensures InputAt(e, a + b, |a| + k) == InputAt(Run(e, a), b, k)
  {
    hide Cycle, OutputOf, InputOf;
    assert (a + b)[..|a| + k] == a + b[..k];
    RunConcat(e, a, b[..k]);
  }

  /** The state machine inside a run is the state machine alone on the run's inputs. */
  lemma {:induction false} FsmOfRun(e: State, ticks: seq<Tick>)
    ensures Run(e, ticks).fsm == AbsState.Run(e.fsm, Inputs(e, ticks))
  {
    hide InputOf, AbsState.Step;
    if ticks != [] {
      var n := |ticks| - 1;
      FsmOfRun(e, ticks[..n]);
      var inputs := Inputs(e, ticks);
      forall k | 0 <= k < n ensures inputs[k] == Inputs(e, ticks[..n])[k] {
        assert ticks[..n][..k] == ticks[..k];
      }
      assert inputs[..n] == Inputs(e, ticks[..n]);
    }
  }

  // ---- command and status ----

  /** ACTIVE releases the brake; every state in which the ABS stands back passes the pedal. */
  predicate Related(o: Output, request: real) {
    && (o.status == ACTIVE ==> o.command == 0.0)
    && (o.status in {INIT, STANDBY, FAULT_DEGRADED, FAULT_LATCHED} ==> o.command == request)
  }

  lemma StepRelated(e: State, t: Tick)
    requires e.fsm.current == ACTIVE ==> e.command == 0.0
    ensures Related(OutputOf(e, t), t.request)
  {
  }

  lemma {:induction false} CommandFollowsStatus(ticks: seq<Tick>, k: nat)
    requires k < |ticks|
    ensures Related(OutputAt(INITIAL, ticks, k), ticks[k].request)
  {
    hide Cycle, OutputOf, Report, InputOf;
    if k > 0 {
      CommandFollowsStatus(ticks, k - 1);
      assert ticks[..k][..k - 1] == ticks[..k - 1];
      LastOutput(Run(INITIAL, ticks[..k - 1]), ticks[k - 1]);
    }
    StepRelated(Run(INITIAL, ticks[..k]), ticks[k]);
  }

  lemma LastOutput(e: State, t: Tick)
    ensures OutputOf(e, t).status == Cycle(e, t).fsm.current
    ensures OutputOf(e, t).command == Cycle(e, t).command
  {
  }

  lemma StepTwoLevels(e: State, t: Tick)
    requires e.command == 0.0 || e.command == t.request
    ensures Cycle(e, t).command == 0.0 || Cycle(e, t).command == t.request
  {
  }

  /** With a constant pedal the command has two levels: nothing, or all of it. */
  lemma {:induction false} TwoLevels(ticks: seq<Tick>, request: real)
    requires forall t <- ticks :: t.request == request
    ensures Run(INITIAL, ticks).command in {0.0, request}
  {
    hide Cycle;
    if ticks != [] {
      var n := |ticks| - 1;
      assert forall t <- ticks[..n] :: t in ticks;
      TwoLevels(ticks[..n], request);
      StepTwoLevels(Run(INITIAL, ticks[..n]), ticks[n]);
    }
  }
}
