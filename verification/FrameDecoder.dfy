/** The plant's stream decoder: a growable buffer, four counters, and a recursive resync. */
module FrameDecoder {
  import Crc
  import opened Wrappers
  import opened Protocol
  import opened StreamParse
  import opened StreamTheorems
  import opened ParseDepth

  lemma PlantTakesEveryFrame(b: seq<byte>, s: Step)
    requires OneStep(Plant, b) == s
    ensures Extract(Plant, b) ==
            if s.Stuck? then Empty(s.log)
            else if s.log.frames != [] then Got(s.log)
            else
              match Extract(Plant, s.log.rest)
              case Empty(h) => Empty(Then(s.log, h))
              case Got(h) => Got(Then(s.log, h))
  {
  }

  lemma {:induction false} PlantExtractsOne(b: seq<byte>)
    ensures var x := Extract(Plant, b);
            if x.Got? then |x.log.frames| == 1 else x.log.frames == []
    decreases |b|
  {
    hide OneStep;
    var s := OneStep(Plant, b);
    PlantTakesEveryFrame(b, s);
    if s.Moved? && s.log.frames == [] {
      PlantExtractsOne(s.log.rest);
    }
  }

  lemma UpToDate(ops: seq<Op>)
    ensures After(Plant, ops + [DrainNow]) == Drain(Plant, Fed(ops + [DrainNow]))
    ensures After(Plant, ops + [DrainNow]) ==
            Then(After(Plant, ops), Drain(Plant, After(Plant, ops).rest))
  {
    ChunkIndependence(Plant, ops);
    assert (ops + [DrainNow])[..|ops|] == ops;
    assert Fed(ops) + [] == Fed(ops);
  }

  lemma CrcComparison(lo: byte, hi: byte, crc: bv16)
    ensures Crc.Wide(Field(lo, hi)) == Crc.Wide(crc) <==> Field(lo, hi) == crc
  {
  }

  class Decoder {
    var buf: seq<byte>
    var errorsCrc: nat
    var errorsSize: nat
    var errorsType: nat
    var bytesDropped: nat

    /** Every feed and drain so far, and every frame handed out. */
    ghost var ops: seq<Op>
    ghost var delivered: seq<Frame>

    /** Counters and buffer as a log without frames. */
    ghost function Tally(): Log
      reads this
    {
      Log([], errorsSize, errorsType, errorsCrc, bytesDropped, buf)
    }

    /** The object is what its history of feeds and drains makes of it. */
    ghost predicate Valid()
      reads this
    {
      After(Plant, ops) == Tally().(frames := delivered)
    }

    constructor ()
      ensures Valid() && ops == [] && delivered == []
    {
      buf := [];
      errorsCrc, errorsSize, errorsType, bytesDropped := 0, 0, 0, 0;
      ops, delivered := [], [];
    }

    method Feed(data: seq<byte>)
      requires Valid()
      modifies this
      ensures Valid() && ops == old(ops) + [StreamTheorems.Feed(data)]
      ensures delivered == old(delivered)
    {
      buf := buf + data;
      ops := ops + [StreamTheorems.Feed(data)];
      assert ops[..|ops| - 1] == old(ops);
    }

    /** The scan for the magic; `found` is false when there is none. */
    method Scan() returns (i: nat, found: bool)
      ensures FindMagic(buf) == if found then Some(i) else None
    {
      i := 0;
      while i + 1 < |buf|
        invariant forall j: nat :: j < i ==> !MagicAt(buf, j)
        decreases |buf| - i
      {
        if buf[i] == MAGIC_LO && buf[i + 1] == MAGIC_HI {
          FirstMagic(buf, i);
          return i, true;
        }
        i := i + 1;
      }
      assert forall j: nat :: !MagicAt(buf, j);
      found := false;
    }

    /** The checks on a buffer that starts with the magic, in the order the decoder makes them. */
    method Examine() returns (v: Verdict)
      requires |buf| >= 2
      ensures v == Judge(Plant, buf)
    {
      if |buf| < HEADER_SIZE + CRC_SIZE {
        return Incomplete;
      }
      var length := LengthOf(buf[3], buf[4]);
      if length > MAX_PAYLOAD {
        return BadLength;
      }
      if buf[2] != TYPE_SENSOR && buf[2] != TYPE_ACTUATOR {
        return BadType;
      }
      if |buf| < HEADER_SIZE + length + CRC_SIZE {
        return Incomplete;
      }
      var payload := buf[HEADER_SIZE..HEADER_SIZE + length];
      var matches := CheckCrc(length);
      if !matches {
        return BadCrc;
      }
      return Whole(Frame(buf[2], payload));
    }

    method CheckCrc(length: nat) returns (matches: bool)
      requires OVERHEAD + length <= |buf|
      ensures matches == CrcMatches(buf, length)
    {
      var lo, hi := buf[HEADER_SIZE + length], buf[HEADER_SIZE + length + 1];
      var crcCalc := Crc.Crc16Plant(buf[2..HEADER_SIZE + length]);
      CrcComparison(lo, hi, Crc.Of(buf[2..HEADER_SIZE + length]));
      matches := Crc.Wide(Field(lo, hi)) == crcCalc;
    }

    /** Drop what precedes the magic; without one only the last byte is kept. */
    method SkipToMagic() returns (found: bool)
      modifies this`buf, this`bytesDropped
      ensures match FindMagic(old(buf))
              case Some(i) =>
                found && buf == old(buf)[i..] && bytesDropped == old(bytesDropped) + i
              case None =>
                var g := OneStep(Plant, old(buf)).log;
                && !found && OneStep(Plant, old(buf)).Stuck?
                && g.frames == [] && g.badLength == g.badType == g.badCrc == 0
                && bytesDropped == old(bytesDropped) + g.dropped && buf == g.rest
    {
      hide OneStep, FindMagic;
      ghost var whole := buf;
      var i;
      i, found := Scan();
      if !found {
        if |buf| > 0 {
          StepWithoutMagic(Plant, whole);
          bytesDropped := bytesDropped + (|buf| - 1);
          buf := buf[|buf| - 1..];
        } else {
          StuckOnEmpty(Plant);
        }
      } else if i > 0 {
        bytesDropped := bytesDropped + i;
        buf := buf[i..];
      }
    }

    /** Skip to the magic, examine, and take the frame or slide past the magic. */
    method Decide() returns (moved: bool, r: Option<Frame>)
      modifies this`buf, this`errorsCrc, this`errorsSize, this`errorsType, this`bytesDropped
      ensures var s := OneStep(Plant, old(buf));
              && Tally() == Then(old(Tally()), s.log).(frames := [])
              && moved == s.Moved?
              && r == if s.log.frames == [] then None else Some(s.log.frames[0])
    {
      hide OneStep, Judge, FindMagic;
      ghost var whole := buf;
      var found := SkipToMagic();
      if !found {
        return false, None;
      }
      StepWithMagic(Plant, whole, FindMagic(whole).value);
      var v := Examine();
      match v {
        case Incomplete =>
          return false, None;
        case BadLength =>
          errorsSize := errorsSize + 1;
          buf := buf[2..];
        case BadType =>
          errorsType := errorsType + 1;
          buf := buf[2..];
        case BadCrc =>
          errorsCrc := errorsCrc + 1;
          buf := buf[2..];
        case Whole(f) =>
          buf := buf[OVERHEAD + |f.payload|..];
          return true, Some(f);
      }
      return true, None;
    }

    /** `depth` is the number of nested calls: one, and one more for every reject. */
    method TryOne() returns (r: Option<Frame>, ghost depth: nat)
      modifies this`buf, this`errorsCrc, this`errorsSize, this`errorsType, this`bytesDropped
      ensures var x := Extract(Plant, old(buf));
              && Tally() == Then(old(Tally()), x.log).(frames := [])
              && r == if x.Got? then Some(x.log.frames[0]) else None
      ensures depth == Depth(old(buf)) <= DeepestFor(|old(buf)|)
      decreases |buf|
    {
      hide OneStep, Extract;
      ghost var s := OneStep(Plant, buf);
      PlantTakesEveryFrame(buf, s);
      StepRejects(Plant, buf);
      DepthBounded(buf);
      depth := 1;
      var moved;
      moved, r := Decide();
      if moved && r.None? {
        ghost var below;
        r, below := TryOne();
        depth := depth + below;
      }
    }

    /** Whatever was fed before and in whatever pieces, a drain brings the object up to date. */
    method Drain() returns (out: seq<Frame>, ghost deepest: nat)
      requires Valid()
      modifies this
      ensures Valid() && ops == old(ops) + [DrainNow]
      ensures delivered == old(delivered) + out
      ensures Tally().(frames := out) == Then(old(Tally()), StreamParse.Drain(Plant, old(buf)))
      ensures Tally().(frames := delivered) == StreamParse.Drain(Plant, Fed(ops))
      ensures deepest <= DeepestFor(|old(buf)|)
    {
      hide OneStep, Extract, StreamParse.Drain, After, Fed, Depth, DeepestFor;
      out, deepest := [], 0;
      ghost var start, g := buf, Nothing(buf);
      NothingThen(buf, StreamParse.Drain(Plant, buf));
      while true
        invariant Tally().(frames := out) == Then(old(Tally()), g)
        invariant buf == g.rest && out == g.frames
        invariant Then(g, StreamParse.Drain(Plant, g.rest)) == StreamParse.Drain(Plant, start)
        invariant ops == old(ops) && delivered == old(delivered)
        invariant |g.rest| <= |start| && deepest <= DeepestFor(|start|)
        decreases |buf|
      {
        ghost var x := Extract(Plant, buf);
        ExtractAdvances(Plant, start, g);
        PlantExtractsOne(buf);
        var frame;
        ghost var depth;
        frame, depth := TryOne();
        LessIsShallower(|x.log.rest|, |start|);
        LessIsShallower(|g.rest|, |start|);
        deepest := if depth > deepest then depth else deepest;
        g := Then(g, x.log);
        if frame.None? {
          break;
        }
        out := out + [frame.value];
      }
      ops := ops + [DrainNow];
      delivered := delivered + out;
      UpToDate(old(ops));
    }
  }
}
