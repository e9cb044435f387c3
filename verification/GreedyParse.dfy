/**
 The decoders skip, stall and slide two bytes at a time. This file says what that amounts to:
 the leftmost, non-overlapping occurrences of encoder output in the stream, found by a
 reference scan that moves one byte at a time, knows only the encoder, and stops only where a
 frame may still be completed.
 */
module GreedyParse {
  import opened Protocol
  import opened StreamParse
  import opened StreamTheorems

  /** The encoder's output for an acceptable frame `f` stands at position `p`. */
  ghost predicate EncodedAt(d: Receiver, s: seq<byte>, p: nat, f: Frame) {
    p <= |s| && |f.payload| <= MAX_PAYLOAD && AcceptsType(d, f.kind) && Wire(f) <= s[p..]
  }

  ghost predicate FrameAt(d: Receiver, s: seq<byte>, p: nat) {
    exists f :: EncodedAt(d, s, p, f)
  }

  datatype Found = Found(at: nat, frame: Frame)

  /** The leftmost, non-overlapping frames that start in `s[at..end]`. */
  ghost function Reference(d: Receiver, s: seq<byte>, at: nat, end: nat): seq<Found>
    decreases end - at
  {
    if at >= end then []
    else if FrameAt(d, s, at) then
      var f :| EncodedAt(d, s, at, f);
      [Found(at, f)] + Reference(d, s, at + OVERHEAD + |f.payload|, end)
    else Reference(d, s, at + 1, end)
  }

  /** Nothing can be decided about `r` yet: at most one byte, or a frame that may be completed. */
  ghost predicate Undecided(d: Receiver, r: seq<byte>) {
    if |r| <= 1 then true
    else
      && MagicAt(r, 0)
      && (|r| >= OVERHEAD ==>
            LengthOf(r[3], r[4]) <= MAX_PAYLOAD && AcceptsType(d, r[2]) &&
            |r| < OVERHEAD + LengthOf(r[3], r[4]))
  }

  /** Where the same reading, one byte at a time, first has to wait for more bytes. */
  ghost function End(d: Receiver, s: seq<byte>, at: nat): (end: nat)
    requires at <= |s|
    ensures at <= end <= |s| && Undecided(d, s[end..])
    decreases |s| - at
  {
    if Undecided(d, s[at..]) then at
    else if FrameAt(d, s, at) then
      var f :| EncodedAt(d, s, at, f);
      EncodedIsWhole(d, s, at, f);
      End(d, s, at + OVERHEAD + |f.payload|)
    else End(d, s, at + 1)
  }

  function Frames(found: seq<Found>): seq<Frame> {
    seq(|found|, k requires 0 <= k < |found| => found[k].frame)
  }

  // ---- encoder output is what the verdict recognises ----

  lemma EncodedIsWhole(d: Receiver, s: seq<byte>, p: nat, f: Frame)
    requires EncodedAt(d, s, p, f)
    ensures |s| >= p + OVERHEAD + |f.payload|
    ensures MagicAt(s, p) && Judge(d, s[p..]) == Whole(f)
  {
    var b := s[p..];
    var more := b[|Wire(f)|..];
    assert b == Wire(f) + more;
    JudgeWire(d, f, more);
    WireLayout(f, more);
    MagicShift(s, p, 0);
  }

  lemma WholeIsEncoded(d: Receiver, s: seq<byte>, p: nat)
    requires MagicAt(s, p) && Judge(d, s[p..]).Whole?
    ensures EncodedAt(d, s, p, Judge(d, s[p..]).frame)
  {
    MagicShift(s, p, 0);
    WholeIsWire(d, s[p..]);
  }

  lemma NoFrameWithoutMagic(d: Receiver, s: seq<byte>, p: nat)
    requires !MagicAt(s, p)
    ensures !FrameAt(d, s, p)
  {
    forall f | EncodedAt(d, s, p, f) ensures false {
      EncodedIsWhole(d, s, p, f);
    }
  }

  lemma NoFrameIfRejected(d: Receiver, s: seq<byte>, p: nat)
    requires p <= |s| && |s[p..]| >= 2 && !Judge(d, s[p..]).Whole?
    ensures !FrameAt(d, s, p)
  {
    forall f | EncodedAt(d, s, p, f) ensures false {
      EncodedIsWhole(d, s, p, f);
    }
  }

  // ---- the reference scan ----

  lemma {:induction false} ReferenceSkips(d: Receiver, s: seq<byte>, at: nat, mid: nat, end: nat)
    requires at <= mid <= end
    requires forall p: nat :: at <= p < mid ==> !FrameAt(d, s, p)
    ensures Reference(d, s, at, end) == Reference(d, s, mid, end)
    decreases mid - at
  {
    if at < mid {
      ReferenceSkips(d, s, at + 1, mid, end);
    }
  }

  lemma SameFrame(d: Receiver, s: seq<byte>, at: nat, f: Frame, g: Frame)
    requires EncodedAt(d, s, at, f) && EncodedAt(d, s, at, g)
    ensures f == g
  {
    EncodedIsWhole(d, s, at, f);
    EncodedIsWhole(d, s, at, g);
  }

  lemma ReferenceFinds(d: Receiver, s: seq<byte>, at: nat, end: nat, f: Frame)
    requires at < end && EncodedAt(d, s, at, f)
    ensures Reference(d, s, at, end) ==
            [Found(at, f)] + Reference(d, s, at + OVERHEAD + |f.payload|, end)
  {
    hide EncodedAt;
    forall g | EncodedAt(d, s, at, g) ensures g == f {
      SameFrame(d, s, at, f, g);
    }
  }

  // ---- refinement ----

  lemma NoMagicHere(d: Receiver, s: seq<byte>, at: nat, k: nat)
    requires at + k <= |s| && forall j: nat :: j < k ==> !MagicAt(s[at..], j)
    ensures forall p: nat :: at <= p < at + k ==> !FrameAt(d, s, p)
  {
    forall p: nat | at <= p < at + k ensures !FrameAt(d, s, p) {
      MagicShift(s, at, p - at);
      assert !MagicAt(s[at..], p - at);
      NoFrameWithoutMagic(d, s, p);
    }
  }

  /** A stuck receiver has decided only about positions where no frame starts. */
  lemma StuckDecision(d: Receiver, s: seq<byte>, at: nat)
    requires at <= |s| && OneStep(d, s[at..]).Stuck?
    ensures var r := OneStep(d, s[at..]).log.rest;
            |r| <= |s| - at && forall p: nat :: at <= p < |s| - |r| ==> !FrameAt(d, s, p)
  {
    var b := s[at..];
    if b == [] {
      StuckOnEmpty(d);
    } else {
      StuckShape(d, b);
      NoMagicHere(d, s, at, |b| - |OneStep(d, b).log.rest|);
    }
  }

  /** A step that moves acts on the first magic. */
  lemma MovingShape(d: Receiver, b: seq<byte>)
    requires OneStep(d, b).Moved?
    ensures var g := OneStep(d, b).log;
            var i := g.dropped;
            && MagicAt(b, i)
            && (forall j: nat :: j < i ==> !MagicAt(b, j))
            && var v := Judge(d, b[i..]);
               if g.frames == [] then !v.Whole? && g.rest == b[i..][2..]
               else v == Whole(g.frames[0]) && g.frames == [g.frames[0]] &&
                    g.rest == b[i..][OVERHEAD + |g.frames[0].payload|..]
  {
    var i := FindMagic(b).value;
    StepWithMagic(d, b, i);
  }

  lemma NoFrameAfterReject(d: Receiver, s: seq<byte>, p: nat)
    requires MagicAt(s, p) && !Judge(d, s[p..]).Whole?
    ensures !FrameAt(d, s, p) && !FrameAt(d, s, p + 1)
  {
    NoFrameIfRejected(d, s, p);
    assert s[p + 1] == MAGIC_HI;
    NoFrameWithoutMagic(d, s, p + 1);
  }

  /** A moving receiver skipped to the magic and took one frame or slid past the magic. */
  lemma MovingDecision(d: Receiver, s: seq<byte>, at: nat)
    requires at <= |s| && OneStep(d, s[at..]).Moved?
    ensures var g := OneStep(d, s[at..]).log;
            var p := at + g.dropped;
            && p + 1 < |s|
            && (forall q: nat :: at <= q < p ==> !FrameAt(d, s, q))
            && if g.frames == [] then
                 g.rest == s[p + 2..] && !FrameAt(d, s, p) && !FrameAt(d, s, p + 1)
               else
                 && EncodedAt(d, s, p, g.frames[0]) && g.frames == [g.frames[0]]
                 && p + OVERHEAD + |g.frames[0].payload| <= |s|
                 && g.rest == s[p + OVERHEAD + |g.frames[0].payload|..]
  {
    hide OneStep, Judge, FrameAt, EncodedAt;
    var b := s[at..];
    MovingShape(d, b);
    var g := OneStep(d, b).log;
    var p := at + g.dropped;
    NoMagicHere(d, s, at, g.dropped);
    assert b[g.dropped..] == s[p..];
    MagicShift(s, at, g.dropped);
    if g.frames == [] {
      NoFrameAfterReject(d, s, p);
    } else {
      WholeIsEncoded(d, s, p);
    }
  }

  lemma StuckUndecided(d: Receiver, b: seq<byte>)
    requires OneStep(d, b).Stuck?
    ensures Undecided(d, OneStep(d, b).log.rest)
  {
    match FindMagic(b) {
      case None =>
      case Some(i) =>
        StepWithMagic(d, b, i);
        MagicShift(b, i, 0);
    }
  }

  lemma {:induction false} EndSkips(d: Receiver, s: seq<byte>, at: nat, mid: nat)
    requires at <= mid <= |s|
    requires forall p: nat :: at <= p < mid ==> !FrameAt(d, s, p) && !Undecided(d, s[p..])
    ensures End(d, s, at) == End(d, s, mid)
    decreases mid - at
  {
    if at < mid {
      EndSkips(d, s, at + 1, mid);
    }
  }

  lemma WithoutMagicIsDecided(d: Receiver, s: seq<byte>, p: nat)
    requires p + 1 < |s| && !MagicAt(s, p)
    ensures !FrameAt(d, s, p) && !Undecided(d, s[p..])
  {
    NoFrameWithoutMagic(d, s, p);
    MagicShift(s, p, 0);
  }

  lemma EndAfterFrame(d: Receiver, s: seq<byte>, p: nat, f: Frame)
    requires EncodedAt(d, s, p, f)
    ensures |s| >= p + OVERHEAD + |f.payload|
    ensures End(d, s, p) == End(d, s, p + OVERHEAD + |f.payload|)
  {
    hide EncodedAt;
    EncodedIsWhole(d, s, p, f);
    WholeIsDecided(d, s, p);
    forall g | EncodedAt(d, s, p, g) ensures g == f {
      SameFrame(d, s, p, f, g);
    }
  }

  lemma WholeIsDecided(d: Receiver, s: seq<byte>, p: nat)
    requires p + 2 <= |s| && !Judge(d, s[p..]).Incomplete?
    ensures !Undecided(d, s[p..])
  {
  }

  lemma EndAfterReject(d: Receiver, s: seq<byte>, p: nat)
    requires MagicAt(s, p) && !Judge(d, s[p..]).Whole? && !Judge(d, s[p..]).Incomplete?
    ensures p + 2 <= |s| && End(d, s, p) == End(d, s, p + 2)
  {
    NoFrameAfterReject(d, s, p);
    WholeIsDecided(d, s, p);
    assert |s[p..]| >= OVERHEAD;
    assert s[p + 1] == MAGIC_HI;
    WithoutMagicIsDecided(d, s, p + 1);
    EndSkips(d, s, p, p + 2);
  }

  lemma EndSkipsNoMagic(d: Receiver, s: seq<byte>, at: nat, mid: nat)
    requires at <= mid < |s| && forall p: nat :: at <= p < mid ==> !MagicAt(s, p)
    ensures End(d, s, at) == End(d, s, mid)
  {
    hide MagicAt, FrameAt, Undecided, End;
    forall p: nat | at <= p < mid ensures !FrameAt(d, s, p) && !Undecided(d, s[p..]) {
      WithoutMagicIsDecided(d, s, p);
    }
    EndSkips(d, s, at, mid);
  }

  /** A stuck receiver has stopped where the reference waits. */
  lemma EndIfStuck(d: Receiver, s: seq<byte>, at: nat)
    requires at <= |s| && OneStep(d, s[at..]).Stuck?
    ensures OneStep(d, s[at..]).log.rest == s[End(d, s, at)..]
  {
    hide OneStep, MagicAt;
    var b := s[at..];
    if b == [] {
      StuckOnEmpty(d);
    } else {
      StuckShape(d, b);
      StuckUndecided(d, b);
      var r := OneStep(d, b).log.rest;
      var mid := |s| - |r|;
      forall q: nat | at <= q < mid ensures !MagicAt(s, q) {
        MagicShift(s, at, q - at);
      }
      EndSkipsNoMagic(d, s, at, mid);
      assert s[mid..] == r;
    }
  }

  /** Where the receiver goes on after a step that moved, in terms of the whole stream. */
  function Next(d: Receiver, s: seq<byte>, at: nat): (next: nat)
    requires at <= |s| && OneStep(d, s[at..]).Moved?
    ensures at < next <= |s| && OneStep(d, s[at..]).log.rest == s[next..]
  {
    MovingDecision(d, s, at);
    var g := OneStep(d, s[at..]).log;
    at + g.dropped + if g.frames == [] then 2 else OVERHEAD + |g.frames[0].payload|
  }

  lemma EndIfMoved(d: Receiver, s: seq<byte>, at: nat)
    requires at <= |s| && OneStep(d, s[at..]).Moved?
    ensures End(d, s, at) == End(d, s, Next(d, s, at))
  {
    hide OneStep, Judge, FrameAt, EncodedAt, MagicAt, Undecided, End;
    var b := s[at..];
    var g := OneStep(d, b).log;
    var p := at + g.dropped;
    MovingDecision(d, s, at);
    MovingShape(d, b);
    MovingVerdict(d, b);
    assert b[g.dropped..] == s[p..];
    MagicShift(s, at, g.dropped);
    forall q: nat | at <= q < p ensures !MagicAt(s, q) {
      MagicShift(s, at, q - at);
      assert !MagicAt(b, q - at);
    }
    EndSkipsNoMagic(d, s, at, p);
    if g.frames == [] {
      EndAfterReject(d, s, p);
    } else {
      EndAfterFrame(d, s, p, g.frames[0]);
    }
  }

  lemma MovingVerdict(d: Receiver, b: seq<byte>)
    requires OneStep(d, b).Moved?
    ensures var i := OneStep(d, b).log.dropped;
            i + 1 < |b| && !Judge(d, b[i..]).Incomplete?
  {
  }

  /**
   The decoder finds exactly the frames of the reference scan, and stops exactly where that has
   to wait for more bytes.
   */
  lemma {:induction false} DrainIsGreedy(d: Receiver, s: seq<byte>, at: nat)
    requires at <= |s|
    ensures Drain(d, s[at..]).frames == Frames(Reference(d, s, at, End(d, s, at)))
    ensures Drain(d, s[at..]).rest == s[End(d, s, at)..]
    decreases |s| - at
  {
    hide OneStep, FrameAt, EncodedAt, Undecided, End;
    var b := s[at..];
    var step := OneStep(d, b);
    var g := step.log;
    var end := End(d, s, at);
    if step.Stuck? {
      StuckDecision(d, s, at);
      EndIfStuck(d, s, at);
      ReferenceSkips(d, s, at, end, end);
    } else {
      MovingDecision(d, s, at);
      var p := at + g.dropped;
      var next := Next(d, s, at);
      EndIfMoved(d, s, at);
      DrainIsGreedy(d, s, next);
      if g.frames == [] {
        ReferenceSkips(d, s, at, next, end);
      } else {
        ReferenceSkips(d, s, at, p, end);
        ReferenceFinds(d, s, p, end, g.frames[0]);
      }
    }
  }

  // ---- what the reference scan means ----

  /** The reference found `f` at `p`, or a frame that began earlier and contains `p`. */
  predicate Settles(found: Found, p: nat, f: Frame) {
    found == Found(p, f) || found.at < p < found.at + OVERHEAD + |found.frame.payload|
  }

  ghost predicate Settled(found: seq<Found>, p: nat, f: Frame) {
    exists k :: 0 <= k < |found| && Settles(found[k], p, f)
  }

  lemma {:induction false} ReferenceCovers(d: Receiver, s: seq<byte>, at: nat, end: nat, p: nat, f: Frame)
    requires at <= p < end && EncodedAt(d, s, p, f)
    ensures Settled(Reference(d, s, at, end), p, f)
    decreases end - at
  {
    hide EncodedAt;
    var found := Reference(d, s, at, end);
    if FrameAt(d, s, at) {
      var g :| EncodedAt(d, s, at, g);
      ReferenceFinds(d, s, at, end, g);
      var next := at + OVERHEAD + |g.payload|;
      if p == at {
        SameFrame(d, s, p, f, g);
        assert Settles(found[0], p, f);
      } else if p < next {
        assert Settles(found[0], p, f);
      } else {
        ReferenceCovers(d, s, next, end, p, f);
        var tail := Reference(d, s, next, end);
        var k :| 0 <= k < |tail| && Settles(tail[k], p, f);
        assert found[k + 1] == tail[k];
      }
    } else {
      ReferenceCovers(d, s, at + 1, end, p, f);
    }
  }

  /**
   Bounded resynchronisation: once 71 bytes have arrived from the start of a well-formed frame,
   that frame has been delivered, whatever came before it, unless it lies inside an earlier
   delivered frame.
   */
  lemma Resynchronises(d: Receiver, s: seq<byte>, p: nat, f: Frame)
    requires EncodedAt(d, s, p, f) && |s| >= p + OVERHEAD + MAX_PAYLOAD
    ensures var found := Reference(d, s, 0, End(d, s, 0));
            Drain(d, s).frames == Frames(found) && Settled(found, p, f)
  {
    assert s[0..] == s;
    DrainIsGreedy(d, s, 0);
    ReferenceCovers(d, s, 0, End(d, s, 0), p, f);
  }

  // ---- what the counters and the residue mean ----

  datatype Cause = LengthCause | TypeCause | CrcCause

  /** Why no frame is taken at a magic pair: the first check of length, type and CRC that fails. */
  function CauseAt(d: Receiver, s: seq<byte>, p: nat): Cause
    requires p + OVERHEAD <= |s|
  {
    if LengthOf(s[p + 3], s[p + 4]) > MAX_PAYLOAD then LengthCause
    else if !AcceptsType(d, s[p + 2]) then TypeCause
    else CrcCause
  }

  ghost predicate RejectedFor(d: Receiver, s: seq<byte>, p: nat, cause: Cause) {
    MagicAt(s, p) && !FrameAt(d, s, p) && p + OVERHEAD <= |s| && CauseAt(d, s, p) == cause
  }

  /** Magic pairs in `s[at..end]`, outside the frames found there, that are rejected for `cause`. */
  ghost function Rejects(d: Receiver, s: seq<byte>, at: nat, end: nat, cause: Cause): nat
    decreases end - at
  {
    if at >= end then 0
    else if FrameAt(d, s, at) then
      var f :| EncodedAt(d, s, at, f);
      Rejects(d, s, at + OVERHEAD + |f.payload|, end, cause)
    else (if RejectedFor(d, s, at, cause) then 1 else 0) + Rejects(d, s, at + 1, end, cause)
  }

  lemma {:induction false} RejectsSkip(d: Receiver, s: seq<byte>, at: nat, mid: nat, end: nat, cause: Cause)
    requires at <= mid <= end
    requires forall p: nat :: at <= p < mid ==> !MagicAt(s, p)
    ensures Rejects(d, s, at, end, cause) == Rejects(d, s, mid, end, cause)
    decreases mid - at
  {
    if at < mid {
      NoFrameWithoutMagic(d, s, at);
      RejectsSkip(d, s, at + 1, mid, end, cause);
    }
  }

  lemma RejectsOverFrame(d: Receiver, s: seq<byte>, at: nat, end: nat, f: Frame, cause: Cause)
    requires at < end && EncodedAt(d, s, at, f)
    ensures Rejects(d, s, at, end, cause) == Rejects(d, s, at + OVERHEAD + |f.payload|, end, cause)
  {
    hide EncodedAt;
    forall g | EncodedAt(d, s, at, g) ensures g == f {
      SameFrame(d, s, at, f, g);
    }
  }

  lemma RejectsAt(d: Receiver, s: seq<byte>, at: nat, end: nat, cause: Cause)
    requires at + 2 <= end <= |s| && MagicAt(s, at) && !FrameAt(d, s, at)
    requires at + OVERHEAD <= |s|
    ensures Rejects(d, s, at, end, cause) ==
            (if CauseAt(d, s, at) == cause then 1 else 0) + Rejects(d, s, at + 2, end, cause)
  {
    assert s[at + 1] == MAGIC_HI;
    NoFrameWithoutMagic(d, s, at + 1);
  }

  /** Which counter one decision moves. */
  function Counter(g: Log, cause: Cause): nat {
    match cause
    case LengthCause => g.badLength
    case TypeCause => g.badType
    case CrcCause => g.badCrc
  }

  lemma JudgeCause(d: Receiver, s: seq<byte>, p: nat)
    requires MagicAt(s, p)
    ensures var v := Judge(d, s[p..]);
            && (v.BadLength? || v.BadType? || v.BadCrc? ==> p + OVERHEAD <= |s|)
            && (v.BadLength? ==> CauseAt(d, s, p) == LengthCause)
            && (v.BadType? ==> CauseAt(d, s, p) == TypeCause)
            && (v.BadCrc? ==> CauseAt(d, s, p) == CrcCause)
  {
    var b := s[p..];
    if |b| >= OVERHEAD {
      assert b[2] == s[p + 2] && b[3] == s[p + 3] && b[4] == s[p + 4];
    }
  }

  lemma MovingCounter(d: Receiver, s: seq<byte>, at: nat, cause: Cause)
    requires at <= |s| && OneStep(d, s[at..]).Moved?
    ensures var g := OneStep(d, s[at..]).log;
            var p := at + g.dropped;
            && MagicAt(s, p)
            && (forall q: nat :: at <= q < p ==> !MagicAt(s, q))
            && (g.frames != [] ==> Counter(g, cause) == 0)
            && (g.frames == [] ==>
                  && p + OVERHEAD <= |s|
                  && Counter(g, cause) == if CauseAt(d, s, p) == cause then 1 else 0)
  {
    hide Judge, MagicAt, CauseAt, FindMagic;
    var b := s[at..];
    var i := FindMagic(b).value;
    MovingShape(d, b);
    StepWithMagic(d, b, i);
    MagicShift(s, at, i);
    forall q: nat | at <= q < at + i ensures !MagicAt(s, q) {
      MagicShift(s, at, q - at);
      assert !MagicAt(b, q - at);
    }
    assert b[i..] == s[at + i..];
    JudgeCause(d, s, at + i);
  }

  lemma StuckCounter(d: Receiver, s: seq<byte>, at: nat, cause: Cause)
    requires at <= |s| && OneStep(d, s[at..]).Stuck?
    ensures var g := OneStep(d, s[at..]).log;
            && Counter(g, cause) == 0 && |g.rest| <= |s| - at
            && forall q: nat :: at <= q < |s| - |g.rest| ==> !MagicAt(s, q)
  {
    hide OneStep, MagicAt;
    var b := s[at..];
    if b == [] {
      StuckOnEmpty(d);
    } else {
      StuckShape(d, b);
      forall q: nat | at <= q < |s| - |OneStep(d, b).log.rest| ensures !MagicAt(s, q) {
        MagicShift(s, at, q - at);
      }
    }
  }

  /** Each counter is the number of rejected magic pairs with its cause: none is skipped. */
  lemma {:induction false} CountersAreRejects(d: Receiver, s: seq<byte>, at: nat, cause: Cause)
    requires at <= |s|
    ensures Counter(Drain(d, s[at..]), cause) == Rejects(d, s, at, End(d, s, at), cause)
    decreases |s| - at
  {
    hide OneStep, FrameAt, EncodedAt, CauseAt, MagicAt, Undecided, End;
    var b := s[at..];
    var step := OneStep(d, b);
    var g := step.log;
    var end := End(d, s, at);
    if step.Stuck? {
      StuckCounter(d, s, at, cause);
      EndIfStuck(d, s, at);
      RejectsSkip(d, s, at, end, end, cause);
    } else {
      MovingDecision(d, s, at);
      MovingCounter(d, s, at, cause);
      var p := at + g.dropped;
      var next := Next(d, s, at);
      EndIfMoved(d, s, at);
      CountersAreRejects(d, s, next, cause);
      RejectsSkip(d, s, at, p, end, cause);
      if g.frames == [] {
        RejectsAt(d, s, p, end, cause);
      } else {
        RejectsOverFrame(d, s, p, end, g.frames[0], cause);
      }
    }
  }

  lemma {:induction false} ResidueIsUndecided(d: Receiver, b: seq<byte>)
    ensures Undecided(d, Drain(d, b).rest)
    ensures var r := Drain(d, b).rest; |r| <= |b| && r == b[|b| - |r|..]
    decreases |b|
  {
    hide OneStep, Undecided;
    var s := OneStep(d, b);
    StepLeavesSuffix(d, b);
    if s.Stuck? {
      StuckUndecided(d, b);
    } else {
      var left := s.log.rest;
      ResidueIsUndecided(d, left);
      var r := Drain(d, left).rest;
      assert left[|left| - |r|..] == b[|b| - |left|..][|left| - |r|..] == b[|b| - |r|..];
    }
  }
}
