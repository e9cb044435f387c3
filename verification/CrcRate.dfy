/** The CRC error rate over whole runs: consecutive windows of one hundred calls. */
module CrcRate {
  import opened UInt32
  import opened Sensors
  import AbsState
  import Diagnostic
  import opened Ecu

  /** The link's error total after call `n`; calls are counted from one. */
  function TotalAt(ticks: seq<Tick>, n: nat): uint32
    requires n <= |ticks|
  {
    if n == 0 then 0 else ticks[n - 1].crcTotal
  }

  ghost predicate Nondecreasing(ticks: seq<Tick>) {
    forall i, j :: 0 <= i <= j <= |ticks| ==> TotalAt(ticks, i) <= TotalAt(ticks, j)
  }

  /** The last call before the window that is open after call `n`. */
  function WindowBase(n: nat): (m: nat)
    ensures m <= n
  {
    if n < 100 then 0 else 100 * (n / 100) - 1
  }

  /** Errors first seen in the calls of the window that is open after call `n`. */
  function OpenErrors(ticks: seq<Tick>, n: nat): int
    requires n <= |ticks|
  {
    TotalAt(ticks, n) - TotalAt(ticks, WindowBase(n))
  }

  lemma WindowOfCycle(e: State, t: Tick)
    ensures var d := Cycle(e, t).detectors;
            var w := Diagnostic.Window(e.detectors, t.crcTotal);
            && d.crcInWindow == w.crcInWindow && d.cyclesInWindow == w.cyclesInWindow
            && d.lastCrcSeen == w.lastCrcSeen
            && (CommCrc in OutputOf(e, t).dtc <==> Diagnostic.RateExceeded(e.detectors))
  {
  }

  lemma WindowStep(d: Diagnostic.Detectors, total: uint32, n: nat, errors: uint32)
    requires d.cyclesInWindow == n % 100 && d.crcInWindow == errors && total >= d.lastCrcSeen
    requires errors + (total - d.lastCrcSeen) < U32
    ensures var w := Diagnostic.Window(d, total);
            && w.cyclesInWindow == (n + 1) % 100
            && w.lastCrcSeen == total
            && w.crcInWindow == (if (n + 1) % 100 == 0 then 0 else errors) + (total - d.lastCrcSeen)
  {
    WrapSmall(d.cyclesInWindow + 1);
    WrapSmall(errors + (total - d.lastCrcSeen));
    WrapSmall(total - d.lastCrcSeen);
  }

  lemma TotalsOfPrefix(ticks: seq<Tick>, n: nat)
    requires n <= |ticks| && Nondecreasing(ticks)
    ensures Nondecreasing(ticks[..n])
    ensures forall i: nat :: i <= n ==> TotalAt(ticks[..n], i) == TotalAt(ticks, i)
  {
    forall i: nat | i <= n ensures TotalAt(ticks[..n], i) == TotalAt(ticks, i) {
    }
  }

  lemma BaseAdvances(n: nat)
    ensures WindowBase(n + 1) == if (n + 1) % 100 == 0 then n else WindowBase(n)
  {
    if (n + 1) % 100 != 0 {
      assert (n + 1) / 100 == n / 100;
    } else {
      assert 100 * ((n + 1) / 100) == n + 1;
    }
  }

  lemma {:induction false} WindowInvariant(ticks: seq<Tick>)
    requires Nondecreasing(ticks)
    ensures var d := Run(INITIAL, ticks).detectors;
            && d.cyclesInWindow == |ticks| % 100
            && d.lastCrcSeen == TotalAt(ticks, |ticks|)
            && d.crcInWindow == OpenErrors(ticks, |ticks|)
  {
    hide Cycle, OutputOf, Diagnostic.Window;
    if ticks != [] {
      var n := |ticks| - 1;
      TotalsOfPrefix(ticks, n);
      WindowInvariant(ticks[..n]);
      var e := Run(INITIAL, ticks[..n]);
      WindowOfCycle(e, ticks[n]);
      assert TotalAt(ticks, n) <= TotalAt(ticks, n + 1);
      WindowStep(e.detectors, ticks[n].crcTotal, n, e.detectors.crcInWindow);
      BaseAdvances(n);
    }
  }

  /**
   The code is raised only at every hundredth call, and there exactly when at least five errors
   were first seen since the previous hundredth call, that call included and this one not.
   */
  lemma RaisedAtHundreds(ticks: seq<Tick>, n: nat)
    requires Nondecreasing(ticks) && 1 <= n <= |ticks|
    ensures CommCrc in OutputAt(INITIAL, ticks, n - 1).dtc <==>
            n % 100 == 0 &&
            TotalAt(ticks, n - 1) - TotalAt(ticks, if n == 100 then 0 else n - 101) >= 5
  {
    hide Cycle, OutputOf, Diagnostic.Window;
    var before := ticks[..n - 1];
    TotalsOfPrefix(ticks, n - 1);
    WindowInvariant(before);
    var d := Run(INITIAL, before).detectors;
    WindowOfCycle(Run(INITIAL, before), ticks[n - 1]);
    WrapSmall(d.cyclesInWindow + 1);
    if n % 100 == 0 {
      assert 100 * ((n - 1) / 100) == n - 100;
    }
  }

  /** What the counter holds when it is compared for the `m`-th time, on entry to call 100m. */
  function JudgedAt(ticks: seq<Tick>, m: nat): uint32
    requires 1 <= m && 100 * m <= |ticks|
  {
    Run(INITIAL, ticks[..100 * m - 1]).detectors.crcInWindow
  }

  function JudgedSum(ticks: seq<Tick>, m: nat): nat
    requires 100 * m <= |ticks|
  {
    if m == 0 then 0 else JudgedSum(ticks, m - 1) + JudgedAt(ticks, m)
  }

  lemma JudgedWindow(ticks: seq<Tick>, m: nat)
    requires Nondecreasing(ticks) && 1 <= m && 100 * m <= |ticks|
    ensures JudgedAt(ticks, m) ==
            TotalAt(ticks, 100 * m - 1) - if m == 1 then 0 else TotalAt(ticks, 100 * m - 101)
    ensures CommCrc in OutputAt(INITIAL, ticks, 100 * m - 1).dtc <==> JudgedAt(ticks, m) >= 5
  {
    hide Cycle, OutputOf, Diagnostic.Window;
    var before := ticks[..100 * m - 1];
    TotalsOfPrefix(ticks, 100 * m - 1);
    WindowInvariant(before);
    assert (100 * m - 1) / 100 == m - 1;
    RaisedAtHundreds(ticks, 100 * m);
  }

  /**
   The detector's windows neither overlap nor leak: over any number of comparisons, what its
   counter held adds up to the link's total before the last of them, and a comparison raises the
   code exactly when the counter holds at least five.
   */
  lemma {:induction false} WindowsPartition(ticks: seq<Tick>, m: nat)
    requires Nondecreasing(ticks) && 100 * m <= |ticks|
    ensures JudgedSum(ticks, m) == if m == 0 then 0 else TotalAt(ticks, 100 * m - 1)
    ensures m > 0 ==>
              (CommCrc in OutputAt(INITIAL, ticks, 100 * m - 1).dtc <==> JudgedAt(ticks, m) >= 5)
  {
    hide JudgedAt, OutputOf;
    if m > 0 {
      WindowsPartition(ticks, m - 1);
      JudgedWindow(ticks, m);
    }
  }

  lemma FaultAtHundred(ticks: seq<Tick>, k: nat)
    requires Nondecreasing(ticks) && k < |ticks|
    ensures (&& OutputAt(INITIAL, ticks, k).dtc <= {CommCrc}
             && AbsState.Usable(InputAt(INITIAL, ticks, k).sample)
             && AbsState.Faulty(Inputs(INITIAL, ticks)[k])) ==>
              (k + 1) % 100 == 0
  {
    assert InputAt(INITIAL, ticks, k).dtc == OutputAt(INITIAL, ticks, k).dtc;
    RaisedAtHundreds(ticks, k + 1);
  }

  /** In every cycle the sample is usable and no code but the CRC rate is raised. */
  ghost predicate OnlyCrcErrors(ticks: seq<Tick>) {
    forall k: nat :: k < |ticks| ==>
      OutputAt(INITIAL, ticks, k).dtc <= {CommCrc} &&
      AbsState.Usable(InputAt(INITIAL, ticks, k).sample)
  }

  lemma NoTwoFaultsInARow(ticks: seq<Tick>, k: nat)
    requires Nondecreasing(ticks) && OnlyCrcErrors(ticks) && k + 1 < |ticks|
    requires AbsState.Faulty(Inputs(INITIAL, ticks)[k])
    ensures !AbsState.Faulty(Inputs(INITIAL, ticks)[k + 1])
  {
    hide Cycle, OutputOf, InputOf, AbsState.Faulty, AbsState.Usable;
    FaultAtHundred(ticks, k);
    if AbsState.Faulty(Inputs(INITIAL, ticks)[k + 1]) {
      FaultAtHundred(ticks, k + 1);
    }
  }

  /** CRC errors alone never latch the ECU. */
  lemma CrcAloneNeverLatches(ticks: seq<Tick>)
    requires Nondecreasing(ticks) && OnlyCrcErrors(ticks)
    ensures Run(INITIAL, ticks).fsm.current != FAULT_LATCHED
  {
    hide Cycle, OutputOf, InputOf, AbsState.Faulty, OnlyCrcErrors;
    var inputs := Inputs(INITIAL, ticks);
    FsmOfRun(INITIAL, ticks);
    AbsState.LatchIsHistory(inputs);
    if AbsState.EverTenFaults(inputs) {
      var i: nat :| AbsState.TenFaultsAt(inputs, i);
      NoTwoFaultsInARow(ticks, i);
    }
  }

  /**
   The windows do not roll: eight errors in two consecutive calls are never reported when four
   fall on either side of a boundary.
   */
  lemma WindowsDoNotRoll(ticks: seq<Tick>, n: nat)
    requires |ticks| == 250 && 1 <= n <= 250
    requires forall k :: 0 <= k < 250 ==>
               ticks[k].crcTotal == if k < 98 then 0 else if k == 98 then 4 else 8
    ensures TotalAt(ticks, 100) - TotalAt(ticks, 98) == 8
    ensures CommCrc !in OutputAt(INITIAL, ticks, n - 1).dtc
  {
    hide OutputOf;
    assert Nondecreasing(ticks);
    RaisedAtHundreds(ticks, n);
  }

  /**
   Eight is the most that can go unreported: nine errors within any hundred consecutive calls
   raise the code at the next comparison or at the one after it.
   */
  lemma NineAreReported(ticks: seq<Tick>, i: nat, m: nat)
    requires Nondecreasing(ticks) && m == (i + 1) / 100 + 1 && 100 * (m + 1) <= |ticks|
    requires TotalAt(ticks, i + 100) - TotalAt(ticks, i) >= 9
    ensures CommCrc in OutputAt(INITIAL, ticks, 100 * m - 1).dtc ||
            CommCrc in OutputAt(INITIAL, ticks, 100 * (m + 1) - 1).dtc
  {
    hide OutputAt;
    RaisedAtHundreds(ticks, 100 * m);
    RaisedAtHundreds(ticks, 100 * (m + 1));
    var from := if m == 1 then 0 else 100 * m - 101;
    assert TotalAt(ticks, from) <= TotalAt(ticks, i);
    assert TotalAt(ticks, i + 100) <= TotalAt(ticks, 100 * (m + 1) - 1);
  }
}
