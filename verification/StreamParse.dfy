/**
 What a byte stream means to a receiver.

 Two receivers read the same envelope: the plant's decoder and the ECU's driver. They differ
 only in the types they accept and in whether they hand out frames of any length. `Drain` is
 the specification of both: it moves over a buffer until it can decide nothing more, and logs
 what it took, rejected and dropped.
 */
module StreamParse {
  import Crc
  import opened Wrappers
  import opened Protocol

  /** The plant's `FrameDecoder`, or the controller's `try_extract_frame`. */
  datatype Receiver = Plant | Ecu

  predicate AcceptsType(d: Receiver, kind: byte) {
    kind == TYPE_SENSOR || (d == Plant && kind == TYPE_ACTUATOR)
  }

  /** Frames whose CRC is right but whose payload has another size are of no use to the ECU. */
  predicate Wanted(d: Receiver, f: Frame) {
    d == Plant || |f.payload| == SENSOR_SIZE
  }

  function Delivered(d: Receiver, frames: seq<Frame>): seq<Frame> {
    if frames == [] then []
    else if Wanted(d, frames[0]) then [frames[0]] + Delivered(d, frames[1..])
    else Delivered(d, frames[1..])
  }

  // ---- one decision ----

  predicate MagicAt(b: seq<byte>, i: nat) {
    i + 1 < |b| && b[i] == MAGIC_LO && b[i + 1] == MAGIC_HI
  }

  function FindMagic(b: seq<byte>): (r: Option<nat>)
    ensures r.Some? ==> MagicAt(b, r.value) && forall j: nat :: j < r.value ==> !MagicAt(b, j)
    ensures r.None? ==> forall j: nat :: !MagicAt(b, j)
  {
    FindMagicFrom(b, 0)
  }

  function FindMagicFrom(b: seq<byte>, i: nat): (r: Option<nat>)
    requires i <= |b|
    requires forall j: nat :: j < i ==> !MagicAt(b, j)
    ensures r.Some? ==> MagicAt(b, r.value) && forall j: nat :: j < r.value ==> !MagicAt(b, j)
    ensures r.None? ==> forall j: nat :: !MagicAt(b, j)
    decreases |b| - i
  {
    if i + 1 >= |b| then None
    else if MagicAt(b, i) then Some(i)
    else FindMagicFrom(b, i + 1)
  }

  lemma FirstMagic(b: seq<byte>, i: nat)
    requires MagicAt(b, i) && forall j: nat :: j < i ==> !MagicAt(b, j)
    ensures FindMagic(b) == Some(i)
  {
  }

  datatype Verdict = Incomplete | BadLength | BadType | BadCrc | Whole(frame: Frame)

  function DeclaredLength(b: seq<byte>): nat
    requires |b| >= OVERHEAD
  {
    LengthOf(b[3], b[4])
  }

  predicate CrcMatches(b: seq<byte>, n: nat)
    requires |b| >= OVERHEAD + n
  {
    Field(b[HEADER_SIZE + n], b[HEADER_SIZE + n + 1]) == Crc.Of(b[2..HEADER_SIZE + n])
  }

  function FrameIn(b: seq<byte>, n: nat): (f: Frame)
    requires |b| >= OVERHEAD + n
    ensures |f.payload| == n
  {
    Frame(b[2], b[HEADER_SIZE..HEADER_SIZE + n])
  }

  /** What a receiver makes of a buffer that starts with the magic. */
  function Judge(d: Receiver, b: seq<byte>): (v: Verdict)
    requires |b| >= 2
    ensures v.Whole? ==> |v.frame.payload| <= MAX_PAYLOAD && OVERHEAD + |v.frame.payload| <= |b|
    ensures v.Whole? ==> AcceptsType(d, v.frame.kind)
    ensures v.Incomplete? ==> |b| < OVERHEAD + MAX_PAYLOAD
    ensures v.BadLength? || v.BadType? || v.BadCrc? ==> |b| >= OVERHEAD
  {
    if |b| < OVERHEAD then Incomplete
    else
      var n := DeclaredLength(b);
      if n > MAX_PAYLOAD then BadLength
      else if !AcceptsType(d, b[2]) then BadType
      else if |b| < OVERHEAD + n then Incomplete
      else if !CrcMatches(b, n) then BadCrc
      else Whole(FrameIn(b, n))
  }

  // ---- whole buffers ----

  /**
   What happened while a buffer was read: the frames with a right CRC in order, the rejects of
   each kind, the bytes skipped while looking for magic, and the bytes that are left.
   */
  datatype Log = Log(frames: seq<Frame>, badLength: nat, badType: nat, badCrc: nat,
                     dropped: nat, rest: seq<byte>)

  function Nothing(rest: seq<byte>): Log {
    Log([], 0, 0, 0, 0, rest)
  }

  /** First `a`, then `b` on what `a` left. */
  function Then(a: Log, b: Log): Log {
    Log(a.frames + b.frames, a.badLength + b.badLength, a.badType + b.badType,
        a.badCrc + b.badCrc, a.dropped + b.dropped, b.rest)
  }

  datatype Step = Stuck(log: Log) | Moved(log: Log)

  /** The consequence of a verdict on `c`, which was found after skipping `i` bytes. */
  function Consume(v: Verdict, i: nat, c: seq<byte>): (s: Step)
    requires v.BadLength? || v.BadType? || v.BadCrc? ==> |c| >= 2
    requires v.Whole? ==> OVERHEAD + |v.frame.payload| <= |c|
    ensures |s.log.rest| <= |c| && |s.log.frames| <= 1
    ensures s.Moved? ==> |s.log.rest| < |c|
    ensures s.Stuck? ==> v.Incomplete? && s.log.rest == c && s.log.frames == []
  {
    match v
    case Incomplete => Stuck(Log([], 0, 0, 0, i, c))
    case BadLength => Moved(Log([], 1, 0, 0, i, c[2..]))
    case BadType => Moved(Log([], 0, 1, 0, i, c[2..]))
    case BadCrc => Moved(Log([], 0, 0, 1, i, c[2..]))
    case Whole(f) => Moved(Log([f], 0, 0, 0, i, c[OVERHEAD + |f.payload|..]))
  }

  /** One decision: skip to the magic, judge what starts there, and consume it if possible. */
  function OneStep(d: Receiver, b: seq<byte>): (s: Step)
    ensures |s.log.rest| <= |b|
    ensures s.Moved? ==> |s.log.rest| < |b| && |s.log.frames| <= 1
    ensures s.Stuck? ==> |s.log.rest| < OVERHEAD + MAX_PAYLOAD && s.log.frames == []
  {
    match FindMagic(b)
    case None =>
      if b == [] then Stuck(Nothing([])) else Stuck(Log([], 0, 0, 0, |b| - 1, [b[|b| - 1]]))
    case Some(i) =>
      Consume(Judge(d, b[i..]), i, b[i..])
  }

  function Drain(d: Receiver, b: seq<byte>): (g: Log)
    ensures |g.rest| < OVERHEAD + MAX_PAYLOAD
    decreases |b|
  {
    match OneStep(d, b)
    case Stuck(g) => g
    case Moved(g) => Then(g, Drain(d, g.rest))
  }

  /** Reading stops at the first wanted frame, which is then the last one in the log. */
  datatype Extraction = Empty(log: Log) | Got(log: Log)

  function Extract(d: Receiver, b: seq<byte>): (x: Extraction)
    ensures x.Got? ==> x.log.frames != [] && |x.log.rest| < |b|
    ensures x.Empty? ==> |x.log.rest| < OVERHEAD + MAX_PAYLOAD
    ensures |x.log.rest| <= |b|
    decreases |b|
  {
    match OneStep(d, b)
    case Stuck(g) => Empty(g)
    case Moved(g) =>
      if g.frames != [] && Wanted(d, g.frames[0]) then Got(g)
      else
        match Extract(d, g.rest)
        case Empty(h) => Empty(Then(g, h))
        case Got(h) => Got(Then(g, h))
  }

  lemma ThenAssociates(a: Log, b: Log, c: Log)
    ensures Then(Then(a, b), c) == Then(a, Then(b, c))
  {
    assert (a.frames + b.frames) + c.frames == a.frames + (b.frames + c.frames);
  }

  lemma NothingThen(r: seq<byte>, b: Log)
    ensures Then(Nothing(r), b) == b
  {
    assert [] + b.frames == b.frames;
  }

  /** Extracting one frame and draining what is left is draining. */
  lemma {:induction false} DrainByExtraction(d: Receiver, b: seq<byte>)
    ensures var x := Extract(d, b);
            Drain(d, b) == if x.Got? then Then(x.log, Drain(d, x.log.rest)) else x.log
    decreases |b|
  {
    hide OneStep;
    var s := OneStep(d, b);
    if s.Moved? && !(s.log.frames != [] && Wanted(d, s.log.frames[0])) {
      DrainByExtraction(d, s.log.rest);
      var x := Extract(d, s.log.rest);
      if x.Got? {
        ThenAssociates(s.log, x.log, Drain(d, x.log.rest));
      }
    }
  }

  /** One more extraction brings a partial reading `g` of `b` closer to the full one. */
  lemma ExtractAdvances(d: Receiver, b: seq<byte>, g: Log)
    requires Then(g, Drain(d, g.rest)) == Drain(d, b)
    ensures var x := Extract(d, g.rest);
            if x.Got? then Then(Then(g, x.log), Drain(d, x.log.rest)) == Drain(d, b)
            else Then(g, x.log) == Drain(d, b)
  {
    hide OneStep;
    var x := Extract(d, g.rest);
    DrainByExtraction(d, g.rest);
    ThenAssociates(g, x.log, Drain(d, x.log.rest));
  }

  lemma {:induction false} DeliveredConcat(d: Receiver, a: seq<Frame>, b: seq<Frame>)
    ensures Delivered(d, a + b) == Delivered(d, a) + Delivered(d, b)
  {
    if a == [] {
      assert a + b == b;
    } else {
      assert (a + b)[1..] == a[1..] + b;
      DeliveredConcat(d, a[1..], b);
    }
  }

  lemma DeliveredOne(d: Receiver, f: Frame)
    ensures Delivered(d, [f]) == if Wanted(d, f) then [f] else []
  {
    assert [f][1..] == [];
  }

  /** An extraction skips only unwanted frames: the one it delivers is its last. */
  lemma {:induction false} ExtractDelivers(d: Receiver, b: seq<byte>)
    ensures var x := Extract(d, b);
            Delivered(d, x.log.frames) ==
            if x.Got? then [x.log.frames[|x.log.frames| - 1]] else []
    decreases |b|
  {
    hide OneStep;
    var s := OneStep(d, b);
    if s.Moved? {
      if s.log.frames != [] {
        assert s.log.frames == [s.log.frames[0]];
        DeliveredOne(d, s.log.frames[0]);
      }
      if !(s.log.frames != [] && Wanted(d, s.log.frames[0])) {
        ExtractDelivers(d, s.log.rest);
        DeliveredConcat(d, s.log.frames, Extract(d, s.log.rest).log.frames);
      }
    }
  }

  // ---- chunk independence ----

  lemma HeaderMore(b: seq<byte>, more: seq<byte>)
    requires |b| >= OVERHEAD
    ensures DeclaredLength(b + more) == DeclaredLength(b)
    ensures (b + more)[2] == b[2]
  {
  }

  lemma FrameMore(b: seq<byte>, more: seq<byte>, n: nat)
    requires |b| >= OVERHEAD + n
    ensures CrcMatches(b + more, n) == CrcMatches(b, n)
    ensures FrameIn(b + more, n) == FrameIn(b, n)
  {
    assert (b + more)[2..HEADER_SIZE + n] == b[2..HEADER_SIZE + n];
    assert (b + more)[HEADER_SIZE..HEADER_SIZE + n] == b[HEADER_SIZE..HEADER_SIZE + n];
  }

  lemma JudgeMore(d: Receiver, b: seq<byte>, more: seq<byte>)
    requires |b| >= 2 && !Judge(d, b).Incomplete?
    ensures Judge(d, b + more) == Judge(d, b)
  {
    HeaderMore(b, more);
    var n := DeclaredLength(b);
    if n <= MAX_PAYLOAD && AcceptsType(d, b[2]) {
      FrameMore(b, more, n);
    }
  }

  lemma MagicMore(b: seq<byte>, more: seq<byte>, j: nat)
    requires j + 1 < |b|
    ensures MagicAt(b + more, j) == MagicAt(b, j)
  {
  }

  lemma FindMagicMore(b: seq<byte>, more: seq<byte>)
    requires FindMagic(b).Some?
    ensures FindMagic(b + more) == FindMagic(b)
  {
    var i := FindMagic(b).value;
    forall j: nat | j <= i ensures MagicAt(b + more, j) == MagicAt(b, j) {
      MagicMore(b, more, j);
    }
    FirstMagic(b + more, i);
  }

  lemma ConsumeMore(v: Verdict, i: nat, c: seq<byte>, more: seq<byte>)
    requires v.BadLength? || v.BadType? || v.BadCrc? ==> |c| >= 2
    requires v.Whole? ==> OVERHEAD + |v.frame.payload| <= |c|
    requires !v.Incomplete?
    ensures var g := Consume(v, i, c).log;
            Consume(v, i, c + more) == Moved(g.(rest := g.rest + more))
  {
  }

  /** A decision that was taken is not changed by bytes that arrive later. */
  lemma StepMore(d: Receiver, b: seq<byte>, more: seq<byte>)
    requires OneStep(d, b).Moved?
    ensures var g := OneStep(d, b).log;
            OneStep(d, b + more) == Moved(g.(rest := g.rest + more))
  {
    FindMagicMore(b, more);
    var i := FindMagic(b).value;
    assert (b + more)[i..] == b[i..] + more;
    JudgeMore(d, b[i..], more);
    ConsumeMore(Judge(d, b[i..]), i, b[i..], more);
  }

  lemma MagicShift(b: seq<byte>, k: nat, j: nat)
    requires k <= |b|
    ensures MagicAt(b[k..], j) == MagicAt(b, k + j)
  {
  }

  /** Bytes before the first magic can be dropped early or late. */
  lemma FindMagicAfter(b: seq<byte>, k: nat)
    requires k <= |b| && forall j: nat :: j < k ==> !MagicAt(b, j)
    ensures FindMagic(b) ==
            match FindMagic(b[k..]) case None => None case Some(i) => Some(k + i)
  {
    forall j: nat ensures MagicAt(b[k..], j) == MagicAt(b, k + j) {
      MagicShift(b, k, j);
    }
    match FindMagic(b[k..]) {
      case None =>
        forall j: nat ensures !MagicAt(b, j) {
          if j >= k {
            assert !MagicAt(b[k..], j - k);
          }
        }
      case Some(i) =>
        forall j: nat | j < k + i ensures !MagicAt(b, j) {
          if j >= k {
            assert !MagicAt(b[k..], j - k);
          }
        }
        FirstMagic(b, k + i);
    }
  }

  lemma ConsumeLater(v: Verdict, k: nat, i: nat, c: seq<byte>)
    requires v.BadLength? || v.BadType? || v.BadCrc? ==> |c| >= 2
    requires v.Whole? ==> OVERHEAD + |v.frame.payload| <= |c|
    ensures var s := Consume(v, i, c);
            Consume(v, k + i, c) == s.(log := s.log.(dropped := k + s.log.dropped))
  {
  }

  lemma MagicInside(b: seq<byte>, i: nat)
    requires MagicAt(b, i)
    ensures i + 1 < |b|
  {
  }

  lemma StepWithMagic(d: Receiver, b: seq<byte>, i: nat)
    requires FindMagic(b) == Some(i)
    ensures OneStep(d, b) == Consume(Judge(d, b[i..]), i, b[i..])
  {
  }

  lemma StepWithoutMagic(d: Receiver, b: seq<byte>)
    requires FindMagic(b).None? && b != []
    ensures OneStep(d, b) == Stuck(Log([], 0, 0, 0, |b| - 1, [b[|b| - 1]]))
  {
  }

  lemma SkipAhead(d: Receiver, b: seq<byte>, k: nat)
    requires k < |b| && forall j: nat :: j < k ==> !MagicAt(b, j)
    ensures var s := OneStep(d, b[k..]);
            OneStep(d, b) == s.(log := s.log.(dropped := k + s.log.dropped))
  {
    hide OneStep, FindMagic, Judge, MagicAt;
    FindMagicAfter(b, k);
    var c := b[k..];
    match FindMagic(c) {
      case None =>
        StepWithoutMagic(d, b);
        StepWithoutMagic(d, c);
      case Some(i) =>
        MagicInside(c, i);
        assert b[k + i..] == c[i..];
        StepWithMagic(d, b, k + i);
        StepWithMagic(d, c, i);
        ConsumeLater(Judge(d, c[i..]), k, i, c[i..]);
    }
  }

  /** Draining, one step at a time. */
  lemma DrainStep(d: Receiver, b: seq<byte>, s: Step)
    requires OneStep(d, b) == s
    ensures Drain(d, b) == if s.Stuck? then s.log else Then(s.log, Drain(d, s.log.rest))
  {
  }

  lemma LaterStart(k: nat, c: seq<byte>, g: Log, tail: Log)
    ensures Then(g.(dropped := k + g.dropped), tail) == Then(Log([], 0, 0, 0, k, c), Then(g, tail))
    ensures g.(dropped := k + g.dropped) == Then(Log([], 0, 0, 0, k, c), g)
  {
    assert [] + (g.frames + tail.frames) == g.frames + tail.frames;
    assert [] + g.frames == g.frames;
  }

  /** Bytes before the first magic can be dropped early or late. */
  lemma DrainSkip(d: Receiver, b: seq<byte>, k: nat)
    requires k < |b| && forall j: nat :: j < k ==> !MagicAt(b, j)
    ensures Drain(d, b) == Then(Log([], 0, 0, 0, k, b[k..]), Drain(d, b[k..]))
  {
    hide OneStep;
    SkipAhead(d, b, k);
    var s := OneStep(d, b[k..]);
    DrainStep(d, b[k..], s);
    DrainStep(d, b, s.(log := s.log.(dropped := k + s.log.dropped)));
    LaterStart(k, b[k..], s.log, Drain(d, s.log.rest));
  }

  lemma StuckShape(d: Receiver, b: seq<byte>)
    requires OneStep(d, b).Stuck? && b != []
    ensures var g := OneStep(d, b).log;
            && g.rest != []
            && g == Log([], 0, 0, 0, |b| - |g.rest|, b[|b| - |g.rest|..])
            && forall j: nat :: j < |b| - |g.rest| ==> !MagicAt(b, j)
  {
    hide OneStep, FindMagic, Judge, MagicAt;
    match FindMagic(b) {
      case None =>
        StepWithoutMagic(d, b);
        assert b[|b| - 1..] == [b[|b| - 1]];
      case Some(i) =>
        MagicInside(b, i);
        StepWithMagic(d, b, i);
    }
  }

  lemma StuckOnEmpty(d: Receiver)
    ensures OneStep(d, []) == Stuck(Nothing([]))
  {
  }

  lemma DrainStuckInTwo(d: Receiver, a: seq<byte>, b: seq<byte>)
    requires OneStep(d, a).Stuck?
    ensures Drain(d, a + b) == Then(Drain(d, a), Drain(d, Drain(d, a).rest + b))
  {
    hide OneStep;
    var g := OneStep(d, a).log;
    DrainStep(d, a, OneStep(d, a));
    if a == [] {
      StuckOnEmpty(d);
      assert a + b == b && g.rest + b == b;
      NothingThen([], Drain(d, b));
    } else {
      StuckShape(d, a);
      var k := |a| - |g.rest|;
      assert (a + b)[k..] == g.rest + b;
      forall j: nat | j < k ensures !MagicAt(a + b, j) {
        MagicMore(a, b, j);
      }
      DrainSkip(d, a + b, k);
    }
  }

  /** Draining early and then again after more bytes is draining once. */
  lemma {:induction false} DrainInTwo(d: Receiver, a: seq<byte>, b: seq<byte>)
    ensures Drain(d, a + b) == Then(Drain(d, a), Drain(d, Drain(d, a).rest + b))
    decreases |a|
  {
    hide OneStep;
    var s := OneStep(d, a);
    if s.Stuck? {
      DrainStuckInTwo(d, a, b);
    } else {
      var g := s.log;
      StepMore(d, a, b);
      DrainStep(d, a, s);
      DrainStep(d, a + b, Moved(g.(rest := g.rest + b)));
      DrainInTwo(d, g.rest, b);
      ThenAssociates(g, Drain(d, g.rest), Drain(d, Drain(d, g.rest).rest + b));
    }
  }
}
