/**
 The corruption fault from the injector to the trouble code: which frames of a corrupted line
 arrive, what the receiver counts, and from which corruption rate on the ECU notices.
 */
module CorruptionRate {
  import opened Wrappers
  import opened UInt32
  import opened Protocol
  import opened StreamParse
  import opened StreamTheorems
  import FrameCorruption
  import FaultInjector
  import InjectedFaults
  import opened Sensors
  import opened Ecu
  import CrcRate

  /** A fault that becomes active after `clean` frames and then inverts a byte of every `everyN`-th. */
  datatype Fault = Fault(clean: nat, everyN: int, offset: int)

  /** The fault hits payload bytes, and every frame is one that the receiver accepts. */
  ghost predicate Corrupts(d: Receiver, c: Fault, frames: seq<Frame>) {
    c.everyN > 0 && forall f <- frames :: Hittable(d, c, f)
  }

  predicate Hittable(d: Receiver, c: Fault, f: Frame) {
    && c.everyN > 0 && |f.payload| <= MAX_PAYLOAD && AcceptsType(d, f.kind)
    && HEADER_SIZE <= c.offset < HEADER_SIZE + |f.payload|
  }

  predicate Hit(c: Fault, k: nat)
    requires c.everyN > 0
  {
    k >= c.clean && (k - c.clean + 1) % c.everyN == 0
  }

  /** What goes out for frame `k`. */
  function Sent(d: Receiver, c: Fault, f: Frame, k: nat): (w: seq<byte>)
    requires Hittable(d, c, f)
  {
    if k < c.clean then Wire(f)
    else FaultInjector.Mutated(Wire(f), k - c.clean + 1, c.everyN, c.offset).value
  }

  function Line(d: Receiver, c: Fault, frames: seq<Frame>): seq<byte>
    requires Corrupts(d, c, frames)
  {
    if frames == [] then []
    else
      var n := |frames| - 1;
      assert frames[n] in frames;
      Line(d, c, frames[..n]) + Sent(d, c, frames[n], n)
  }

  /** No corrupted frame holds a magic pair behind its own. */
  ghost predicate NoFalseMagic(d: Receiver, c: Fault, frames: seq<Frame>)
    requires Corrupts(d, c, frames)
  {
    forall k: nat :: k < |frames| && Hit(c, k) ==> OneMagic(Sent(d, c, frames[k], k))
  }

  ghost predicate OneMagic(w: seq<byte>) {
    forall j: nat :: 1 <= j ==> !MagicAt(w, j)
  }

  /** The frames that the fault leaves alone. */
  function Spared(c: Fault, frames: seq<Frame>): seq<Frame>
    requires c.everyN > 0
  {
    if frames == [] then []
    else
      var n := |frames| - 1;
      Spared(c, frames[..n]) + if Hit(c, n) then [] else [frames[n]]
  }

  /** The wires that pass through the active fault. */
  function Passed(c: Fault, frames: seq<Frame>): (wires: seq<seq<byte>>)
    requires forall f <- frames :: |f.payload| <= MAX_PAYLOAD
    ensures |wires| == if |frames| <= c.clean then 0 else |frames| - c.clean
  {
    if |frames| <= c.clean then []
    else
      var n := |frames| - 1;
      Passed(c, frames[..n]) + [Wire(frames[n])]
  }

  // ---- one wire after another ----

  lemma WireStart(f: Frame)
    requires |f.payload| <= MAX_PAYLOAD
    ensures Wire(f)[0] == MAGIC_LO && Wire(f)[1] == MAGIC_HI && Wire(f)[2] == f.kind
  {
    WireLayout(f, []);
    assert Wire(f) + [] == Wire(f);
  }

  /** A byte left over from before does not disturb what starts with a magic. */
  lemma LeftoverIsDropped(d: Receiver, x: seq<byte>, w: seq<byte>)
    requires |x| <= 1 && w != [] && w[0] == MAGIC_LO
    ensures Drain(d, x + w) == Then(Log([], 0, 0, 0, |x|, w), Drain(d, w))
  {
    assert (x + w)[|x|..] == w;
    DrainSkip(d, x + w, |x|);
  }

  lemma IntactWire(d: Receiver, c: Fault, f: Frame, k: nat)
    requires Hittable(d, c, f) && !Hit(c, k)
    ensures Sent(d, c, f, k) == Wire(f)
    ensures Drain(d, Wire(f)) == Log([f], 0, 0, 0, 0, [])
  {
    assert [f][1..] == [];
    assert WireAll([f]) == Wire(f) + WireAll([]) == Wire(f);
    RoundTrip(d, [f]);
  }

  /** A reject of an accepted type can only be one for the CRC. */
  lemma RejectedForCrc(d: Receiver, b: seq<byte>)
    requires FrameCorruption.Rejected(d, b) && |b| >= OVERHEAD && AcceptsType(d, b[2])
    requires b[0] == MAGIC_LO && b[1] == MAGIC_HI
    ensures OneStep(d, b) == Moved(Log([], 0, 0, 1, 0, b[2..]))
  {
    FirstMagic(b, 0);
    assert b[0..] == b;
    StepWithMagic(d, b, 0);
  }

  lemma HitWire(d: Receiver, c: Fault, f: Frame, k: nat)
    requires Hittable(d, c, f) && Hit(c, k)
    ensures var w := Sent(d, c, f, k);
            && |w| == |Wire(f)| >= OVERHEAD && w[0] == MAGIC_LO
            && OneStep(d, w) == Moved(Log([], 0, 0, 1, 0, w[2..]))
  {
    hide Wire, OneStep, FrameCorruption.Rejected;
    var w := Sent(d, c, f, k);
    InjectedFaults.InjectedFlipIsRejected(d, f, k - c.clean + 1, c.everyN, c.offset, []);
    assert w + [] == w;
    WireStart(f);
    RejectedForCrc(d, w);
  }

  lemma NoMagicLeft(d: Receiver, b: seq<byte>)
    requires b != [] && forall j: nat :: !MagicAt(b, j)
    ensures Drain(d, b) == Log([], 0, 0, 0, |b| - 1, [b[|b| - 1]])
  {
    StepWithoutMagic(d, b);
  }

  lemma CorruptWire(d: Receiver, c: Fault, f: Frame, k: nat)
    requires Hittable(d, c, f) && Hit(c, k) && OneMagic(Sent(d, c, f, k))
    ensures var w := Sent(d, c, f, k);
            && w != [] && w[0] == MAGIC_LO
            && Drain(d, w) == Log([], 0, 0, 1, |w| - 3, [w[|w| - 1]])
  {
    hide Sent, OneStep;
    var w := Sent(d, c, f, k);
    HitWire(d, c, f, k);
    forall j: nat ensures !MagicAt(w[2..], j) {
      MagicShift(w, 2, j);
      assert !MagicAt(w, 2 + j);
    }
    NoMagicLeft(d, w[2..]);
    DrainStep(d, w, OneStep(d, w));
  }

  /** One more wire behind at most one leftover byte. */
  lemma NextWire(d: Receiver, c: Fault, f: Frame, k: nat, x: seq<byte>)
    requires Hittable(d, c, f) && |x| <= 1
    requires Hit(c, k) ==> OneMagic(Sent(d, c, f, k))
    ensures var g := Drain(d, x + Sent(d, c, f, k));
            && g.frames == (if Hit(c, k) then [] else [f])
            && g.badLength == g.badType == 0 && g.badCrc == (if Hit(c, k) then 1 else 0)
            && |g.rest| <= 1
  {
    hide Sent, Wire, Drain, Hit;
    if Hit(c, k) {
      CorruptWire(d, c, f, k);
    } else {
      IntactWire(d, c, f, k);
      WireStart(f);
    }
    LeftoverIsDropped(d, x, Sent(d, c, f, k));
  }

  // ---- the whole line ----

  lemma PassedGrows(c: Fault, frames: seq<Frame>)
    requires |frames| > c.clean && forall f <- frames :: |f.payload| <= MAX_PAYLOAD
    ensures var n := |frames| - 1; Passed(c, frames) == Passed(c, frames[..n]) + [Wire(frames[n])]
  {
  }

  lemma HitsGrow(wires: seq<seq<byte>>, w: seq<byte>, everyN: int, offset: int)
    ensures FaultInjector.Hits(wires + [w], everyN, offset) ==
            FaultInjector.Hits(wires, everyN, offset) +
            if FaultInjector.Mutated(w, |wires| + 1, everyN, offset) != Ok(w) then 1 else 0
  {
    hide FaultInjector.Mutated;
    assert (wires + [w])[..|wires|] == wires;
  }

  lemma OffsetInReach(d: Receiver, c: Fault, f: Frame)
    requires Hittable(d, c, f)
    ensures FaultInjector.InReach(Wire(f), c.offset)
  {
  }

  lemma NextPassed(d: Receiver, c: Fault, frames: seq<Frame>)
    requires Corrupts(d, c, frames) && frames != []
    ensures var n := |frames| - 1;
            FaultInjector.Hits(Passed(c, frames), c.everyN, c.offset) ==
            FaultInjector.Hits(Passed(c, frames[..n]), c.everyN, c.offset) + if Hit(c, n) then 1 else 0
  {
    hide FaultInjector.Mutated, Wire;
    var n := |frames| - 1;
    assert frames[n] in frames;
    if n >= c.clean {
      PassedGrows(c, frames);
      OffsetInReach(d, c, frames[n]);
      HitsGrow(Passed(c, frames[..n]), Wire(frames[n]), c.everyN, c.offset);
      FaultInjector.ChangedIffMultiple(Wire(frames[n]), n - c.clean + 1, c.everyN, c.offset);
    }
  }

  /**
   Exactly the frames that the fault spared arrive, in order; every hit is counted once, as a CRC
   error; and no other error is counted.
   */
  lemma {:induction false} CorruptedLine(d: Receiver, c: Fault, frames: seq<Frame>)
    requires Corrupts(d, c, frames) && NoFalseMagic(d, c, frames)
    ensures var g := Drain(d, Line(d, c, frames));
            && g.frames == Spared(c, frames)
            && g.badLength == g.badType == 0
            && g.badCrc == FaultInjector.Hits(Passed(c, frames), c.everyN, c.offset)
            && |g.rest| <= 1
  {
    hide OneStep, Sent, Hit, FaultInjector.Hits, Drain, Hittable, OneMagic;
    if frames == [] {
      NothingSent(d, c);
    } else {
      var n := |frames| - 1;
      var init := frames[..n];
      assert forall f <- init :: f in frames;
      assert frames[n] in frames;
      assert NoFalseMagic(d, c, init);
      CorruptedLine(d, c, init);
      var a, w := Line(d, c, init), Sent(d, c, frames[n], n);
      DrainInTwo(d, a, w);
      NextWire(d, c, frames[n], n, Drain(d, a).rest);
      NextPassed(d, c, frames);
    }
  }

  lemma NothingSent(d: Receiver, c: Fault)
    ensures Drain(d, []) == Nothing([])
    ensures FaultInjector.Hits([], c.everyN, c.offset) == 0
  {
    StuckOnEmpty(d);
  }

  /** How many of the first `n` frames were hit. */
  function HitsOf(c: Fault, n: nat): nat
    requires c.everyN > 0
  {
    if n <= c.clean then 0 else (n - c.clean) / c.everyN
  }

  lemma LineErrors(d: Receiver, c: Fault, frames: seq<Frame>)
    requires Corrupts(d, c, frames) && NoFalseMagic(d, c, frames)
    ensures Drain(d, Line(d, c, frames)).badCrc == HitsOf(c, |frames|)
  {
    hide Drain, Line;
    CorruptedLine(d, c, frames);
    AllInReach(d, c, frames);
    FaultInjector.OneInEveryN(Passed(c, frames), c.everyN, c.offset);
    FaultInjector.Quotient(0, c.everyN, 0, 0);
  }

  lemma {:induction false} AllInReach(d: Receiver, c: Fault, frames: seq<Frame>)
    requires Corrupts(d, c, frames)
    ensures forall w <- Passed(c, frames) :: FaultInjector.InReach(w, c.offset)
  {
    if |frames| > c.clean {
      var n := |frames| - 1;
      assert forall f <- frames[..n] :: f in frames;
      assert frames[n] in frames;
      AllInReach(d, c, frames[..n]);
    }
  }

  // ---- the ECU behind the line ----

  /** One frame per cycle, and the receiver's counter as the ECU reads it in that cycle. */
  ghost predicate Watches(ticks: seq<Tick>, c: Fault, frames: seq<Frame>)
    requires Corrupts(Receiver.Ecu, c, frames)
  {
    |ticks| == |frames| && forall k: nat :: k < |ticks| ==>
      ticks[k].crcTotal == CounterAfter(c, frames, k + 1)
  }

  ghost function CounterAfter(c: Fault, frames: seq<Frame>, n: nat): uint32
    requires Corrupts(Receiver.Ecu, c, frames) && n <= |frames|
  {
    Wrap32(Drain(Receiver.Ecu, Line(Receiver.Ecu, c, frames[..n])).badCrc)
  }

  lemma CounterIs(c: Fault, frames: seq<Frame>, n: nat)
    requires Corrupts(Receiver.Ecu, c, frames) && NoFalseMagic(Receiver.Ecu, c, frames)
    requires n <= |frames| < U32
    ensures CounterAfter(c, frames, n) == HitsOf(c, n)
  {
    hide Drain, Line, Hittable, OneMagic, Sent;
    var sent := frames[..n];
    assert forall f <- sent :: f in frames;
    LineErrors(Receiver.Ecu, c, sent);
    QuotientsGrow(c, n, n);
    WrapSmall(HitsOf(c, n));
  }

  lemma QuotientBounds(a: nat, n: int)
    requires n > 0
    ensures 0 <= a / n * n <= a < a / n * n + n
    ensures a / n <= a
  {
    Slower(a / n, n);
  }

  lemma Slower(q: int, n: int)
    requires n > 0
    ensures q >= 0 ==> q <= q * n
    ensures q < 0 ==> q * n < 0
  {
  }

  lemma Larger(p: int, q: int, n: int)
    requires n > 0
    ensures p > q ==> p * n >= q * n + n
  {
    if p > q {
      Slower(p - q - 1, n);
      assert (p - q - 1) * n == p * n - q * n - n;
    }
  }

  lemma QuotientsGrow(c: Fault, m: nat, n: nat)
    requires c.everyN > 0 && m <= n
    ensures HitsOf(c, m) <= HitsOf(c, n) <= n
  {
    if c.clean < n {
      QuotientBounds(n - c.clean, c.everyN);
    }
    if c.clean < m {
      QuotientBounds(m - c.clean, c.everyN);
      Larger(HitsOf(c, m), HitsOf(c, n), c.everyN);
    }
  }

  lemma WatchedTotals(ticks: seq<Tick>, c: Fault, frames: seq<Frame>)
    requires Corrupts(Receiver.Ecu, c, frames) && NoFalseMagic(Receiver.Ecu, c, frames)
    requires Watches(ticks, c, frames) && |ticks| < U32
    ensures forall n: nat :: n <= |ticks| ==> CrcRate.TotalAt(ticks, n) == HitsOf(c, n)
    ensures CrcRate.Nondecreasing(ticks)
  {
    hide CounterAfter, HitsOf, Corrupts, NoFalseMagic;
    EveryNth(c, frames);
    forall n: nat | n <= |ticks| ensures CrcRate.TotalAt(ticks, n) == HitsOf(c, n) {
      NothingHitYet(c);
      if n > 0 {
        CounterIs(c, frames, n);
        assert ticks[n - 1].crcTotal == CounterAfter(c, frames, n - 1 + 1);
      }
    }
    forall i, j | 0 <= i <= j <= |ticks| ensures CrcRate.TotalAt(ticks, i) <= CrcRate.TotalAt(ticks, j) {
      QuotientsGrow(c, i, j);
    }
  }

  lemma NothingHitYet(c: Fault)
    requires c.everyN > 0
    ensures HitsOf(c, 0) == 0
  {
  }

  lemma EveryNth(c: Fault, frames: seq<Frame>)
    requires Corrupts(Receiver.Ecu, c, frames)
    ensures c.everyN > 0
  {
  }

  /** Hits in the window that is judged at call 100m. */
  function HitsJudged(c: Fault, m: nat): int
    requires c.everyN > 0 && m >= 1
  {
    HitsOf(c, 100 * m - 1) - if m == 1 then 0 else HitsOf(c, 100 * m - 101)
  }

  /** At call 100m the code is raised iff five hits fell into the window before it. */
  lemma RaisedAt(ticks: seq<Tick>, c: Fault, frames: seq<Frame>, m: nat)
    requires Corrupts(Receiver.Ecu, c, frames) && NoFalseMagic(Receiver.Ecu, c, frames)
    requires Watches(ticks, c, frames) && 1 <= m && 100 * m <= |ticks| < U32
    ensures c.everyN > 0
    ensures CommCrc in OutputAt(INITIAL, ticks, 100 * m - 1).dtc <==> HitsJudged(c, m) >= 5
  {
    hide OutputAt, HitsOf, NoFalseMagic, Corrupts, Watches, CrcRate.TotalAt, CrcRate.Nondecreasing;
    hide CrcRate.JudgedAt;
    EveryNth(c, frames);
    WatchedTotals(ticks, c, frames);
    CrcRate.JudgedWindow(ticks, m);
    assert CrcRate.TotalAt(ticks, 100 * m - 1) == HitsOf(c, 100 * m - 1);
    if m > 1 {
      assert CrcRate.TotalAt(ticks, 100 * m - 101) == HitsOf(c, 100 * m - 101);
    }
  }

  lemma OnlyAtHundreds(ticks: seq<Tick>, c: Fault, frames: seq<Frame>, k: nat)
    requires Corrupts(Receiver.Ecu, c, frames) && NoFalseMagic(Receiver.Ecu, c, frames)
    requires Watches(ticks, c, frames) && k < |ticks| < U32
    ensures CommCrc in OutputAt(INITIAL, ticks, k).dtc ==> (k + 1) % 100 == 0
  {
    hide OutputAt, NoFalseMagic, Corrupts, Watches, CrcRate.TotalAt, CrcRate.Nondecreasing;
    WatchedTotals(ticks, c, frames);
    CrcRate.RaisedAtHundreds(ticks, k + 1);
  }

  // ---- which rates are noticed ----

  lemma FewMultiples(a: nat, b: nat, n: int)
    requires n >= 25 && a <= b <= a + 100
    ensures b / n - a / n <= 4
  {
    QuotientBounds(a, n);
    QuotientBounds(b, n);
    var p, q := b / n, a / n;
    Larger(p, q + 4, n);
    assert (q + 4) * n == q * n + 4 * n;
  }

  lemma FewHits(c: Fault, m: nat)
    requires c.everyN >= 25 && m >= 1
    ensures HitsJudged(c, m) <= 4
  {
    NothingHitYet(c);
    var to, from := 100 * m - 1, if m == 1 then 0 else 100 * m - 101;
    if c.clean < to {
      FewMultiples(if c.clean < from then from - c.clean else 0, to - c.clean, c.everyN);
      NoneInNothing(c.everyN);
    }
  }

  lemma NoneInNothing(n: int)
    requires n > 0
    ensures 0 / n == 0
  {
  }

  lemma FrequentWindow(b: nat, n: int)
    requires 1 <= n <= 20
    ensures (b + 100) / n - b / n >= 5
  {
    QuotientBounds(b, n);
    QuotientBounds(b + 100, n);
    Larger(b / n + 5, (b + 100) / n, n);
    assert (b / n + 5) * n == b / n * n + 5 * n;
  }

  /**
   A hundred is 4 n + s. Where a window starts in one of the last s places between two hits it
   holds five of them.
   */
  lemma LateStart(b: nat, n: int, t: nat)
    requires 21 <= n <= 24
    requires var s := 100 - 4 * n; n - s <= b % n + t * s < n
    ensures (b + 100 * t + 100) / n - (b + 100 * t) / n >= 5
  {
    var s, q, r := 100 - 4 * n, b / n, b % n;
    assert b == n * q + r;
    assert n * (q + 4 * t) == n * q + 4 * (n * t);
    assert t * s == 100 * t - 4 * (n * t);
    FaultInjector.Quotient(b + 100 * t, n, q + 4 * t, r + t * s);
    assert n * (q + 4 * t + 5) == n * (q + 4 * t) + 5 * n;
    FaultInjector.Quotient(b + 100 * t + 100, n, q + 4 * t + 5, r + t * s + 100 - 5 * n);
  }

  /** Among six windows in a row one holds five hits, if at least every 24th frame is hit. */
  lemma BusyWindow(b: nat, n: int) returns (t: nat)
    requires 1 <= n <= 24
    ensures t <= 5
    ensures (b + 100 * t + 100) / n - (b + 100 * t) / n >= 5
  {
    if n <= 20 {
      t := 0;
      FrequentWindow(b, n);
    } else {
      t := LateWindow(b % n, n);
      LateStart(b, n, t);
    }
  }

  lemma LateWindow(r: nat, n: int) returns (t: nat)
    requires 21 <= n <= 24 && r < n
    ensures t <= 5 && var s := 100 - 4 * n; n - s <= r + t * s < n
  {
    if n == 21 {
      t := (20 - r) / 16;
    } else if n == 22 {
      t := (21 - r) / 12;
    } else if n == 23 {
      t := (22 - r) / 8;
    } else {
      t := (23 - r) / 4;
    }
  }

  /** Fewer than one frame in 24: however long the line, the code is never raised. */
  lemma RareHitsGoUnnoticed(ticks: seq<Tick>, c: Fault, frames: seq<Frame>, k: nat)
    requires Corrupts(Receiver.Ecu, c, frames) && NoFalseMagic(Receiver.Ecu, c, frames)
    requires Watches(ticks, c, frames) && k < |ticks| < U32 && c.everyN >= 25
    ensures CommCrc !in OutputAt(INITIAL, ticks, k).dtc
  {
    hide OutputAt, HitsJudged, Corrupts, NoFalseMagic, Watches;
    if CommCrc in OutputAt(INITIAL, ticks, k).dtc {
      OnlyAtHundreds(ticks, c, frames, k);
      var m := (k + 1) / 100;
      RaisedAt(ticks, c, frames, m);
      FewHits(c, m);
    }
  }

  /**
   Once the line is long enough for seven comparisons after the fault sets in, the code is raised
   in it if and only if the fault hits at least every 24th frame.
   */
  lemma NoticedIffEvery24th(ticks: seq<Tick>, c: Fault, frames: seq<Frame>)
    requires Corrupts(Receiver.Ecu, c, frames) && NoFalseMagic(Receiver.Ecu, c, frames)
    requires Watches(ticks, c, frames) && 100 * (c.clean / 100 + 7) <= |ticks| < U32
    ensures (exists k: nat :: k < |ticks| && CommCrc in OutputAt(INITIAL, ticks, k).dtc) <==>
            c.everyN <= 24
  {
    hide OutputAt, Corrupts, NoFalseMagic, Watches, HitsJudged;
    EveryNth(c, frames);
    if c.everyN <= 24 {
      var b := 99 - c.clean % 100;
      var t := BusyWindow(b, c.everyN);
      var m := c.clean / 100 + 2 + t;
      RaisedAt(ticks, c, frames, m);
      HitsInWindow(c, m, b + 100 * t);
      assert CommCrc in OutputAt(INITIAL, ticks, 100 * m - 1).dtc;
    } else {
      forall k: nat | k < |ticks| ensures CommCrc !in OutputAt(INITIAL, ticks, k).dtc {
        RareHitsGoUnnoticed(ticks, c, frames, k);
      }
    }
  }

  lemma HitsInWindow(c: Fault, m: nat, b: nat)
    requires c.everyN > 0 && m >= 2 && 100 * m - 101 == c.clean + b
    ensures HitsJudged(c, m) == (b + 100) / c.everyN - b / c.everyN
  {
    NoneInNothing(c.everyN);
  }

  /** At least one frame in 20: every comparison after the first one in the fault raises the code. */
  lemma FrequentHitsAlwaysNoticed(ticks: seq<Tick>, c: Fault, frames: seq<Frame>, m: nat)
    requires Corrupts(Receiver.Ecu, c, frames) && NoFalseMagic(Receiver.Ecu, c, frames)
    requires Watches(ticks, c, frames) && 100 * m <= |ticks| < U32
    requires c.everyN <= 20 && 100 * m - 101 >= c.clean
    ensures CommCrc in OutputAt(INITIAL, ticks, 100 * m - 1).dtc
  {
    hide OutputAt, Corrupts, NoFalseMagic, Watches, HitsJudged;
    EveryNth(c, frames);
    var b := 100 * m - 101 - c.clean;
    FrequentWindow(b, c.everyN);
    HitsInWindow(c, m, b);
    RaisedAt(ticks, c, frames, m);
  }
}
