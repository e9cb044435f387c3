/**
 How deep the plant's decoder recurses: once more for every reject before the next frame. Its
 interpreter bounds the depth, so the buffered bytes must bound the rejects.
 */
module ParseDepth {
  import opened Protocol
  import opened StreamParse
  import opened StreamTheorems

  function RejectCount(g: Log): nat {
    g.badLength + g.badType + g.badCrc
  }

  /** Nested calls of the search for the next frame in `b`. */
  function Depth(b: seq<byte>): nat {
    1 + RejectCount(Extract(Plant, b).log)
  }

  /** The greatest depth that `n` buffered bytes can cause. */
  function DeepestFor(n: nat): nat {
    if n < OVERHEAD then 1 else 1 + (n - 5) / 2
  }

  lemma LessIsShallower(m: nat, n: nat)
    requires m <= n
    ensures DeepestFor(m) <= DeepestFor(n)
  {
  }

  lemma StepRejects(d: Receiver, b: seq<byte>)
    ensures var g := OneStep(d, b).log;
            && (OneStep(d, b).Stuck? || g.frames != [] ==> RejectCount(g) == 0)
            && (OneStep(d, b).Moved? && g.frames == [] ==>
                  RejectCount(g) == 1 && 5 <= |g.rest| <= |b| - 2)
  {
    match FindMagic(b) {
      case None =>
      case Some(i) =>
    }
  }

  lemma {:induction false} DepthBounded(b: seq<byte>)
    ensures Depth(b) <= DeepestFor(|b|)
    decreases |b|
  {
    hide OneStep;
    var s := OneStep(Plant, b);
    StepRejects(Plant, b);
    if s.Moved? && s.log.frames == [] {
      DepthBounded(s.log.rest);
      assert Depth(b) == 1 + Depth(s.log.rest);
    }
  }

  /** The bytes 55 AA 55 AA ..., in which every magic announces a frame that is too long. */
  function Alternating(n: nat): seq<byte> {
    seq(n, k => if k % 2 == 0 then MAGIC_LO else MAGIC_HI)
  }

  lemma StepOnAlternating(n: nat)
    requires n >= OVERHEAD
    ensures OneStep(Plant, Alternating(n)) == Moved(Log([], 1, 0, 0, 0, Alternating(n - 2)))
  {
    var b := Alternating(n);
    FirstMagic(b, 0);
    assert b[0..] == b;
    assert LengthOf(0xAA, 0x55) == 0x55AA;
    assert b[2..] == Alternating(n - 2);
    StepWithMagic(Plant, b, 0);
  }

  lemma StepOnShort(n: nat)
    requires n < OVERHEAD
    ensures OneStep(Plant, Alternating(n)).Stuck?
  {
    if 2 <= n {
      FirstMagic(Alternating(n), 0);
    }
  }

  lemma {:induction false} AlternatingIsDeepest(n: nat)
    ensures Depth(Alternating(n)) == DeepestFor(n)
  {
    hide OneStep;
    if n < OVERHEAD {
      StepOnShort(n);
      StepRejects(Plant, Alternating(n));
    } else {
      StepOnAlternating(n);
      AlternatingIsDeepest(n - 2);
    }
  }

  /** A recursion limit is safe for every content of a buffer of `n` bytes iff it admits this depth. */
  lemma SafeDepthIff(n: nat, limit: nat)
    ensures (forall b: seq<byte> :: |b| == n ==> Depth(b) <= limit) <==> DeepestFor(n) <= limit
  {
    hide Depth;
    AlternatingIsDeepest(n);
    assert |Alternating(n)| == n;
    forall b: seq<byte> | |b| == n ensures Depth(b) <= DeepestFor(n) {
      DepthBounded(b);
    }
  }

  /** With reads of at most 256 bytes and a drain after each, as on the plant's link, 161 suffice. */
  lemma LinkStaysShallow(ops: seq<Op>, data: seq<byte>)
    requires |data| <= 256
    ensures Depth(After(Plant, ops + [DrainNow, Feed(data)]).rest) <= 161
  {
    hide Depth;
    var drained := ops + [DrainNow];
    assert (drained + [Feed(data)])[..|drained|] == drained;
    assert drained + [Feed(data)] == ops + [DrainNow, Feed(data)];
    ChunkIndependence(Plant, ops);
    DepthBounded(After(Plant, drained).rest + data);
  }

  /** One feed of 2003 bytes can exceed a limit of 999 nested calls; 2002 bytes cannot. */
  lemma OneFeedTooDeep()
    ensures DeepestFor(2002) == 999 && Depth(Alternating(2003)) == 1000
  {
    AlternatingIsDeepest(2003);
  }
}
