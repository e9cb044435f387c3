/**
 The controller's receive path: a fixed 256-byte buffer that is scanned and shifted in place,
 32-bit statistics that wrap, and a loop around `poll` and `recv`.
 */
module SocketDrv {
  import Crc
  import opened UInt32
  import opened Wrappers
  import opened Protocol
  import opened StreamParse
  import opened StreamTheorems

  const RX_BUFFER_SIZE := 256

  /** Counted as size errors: oversized lengths, and right CRCs around a payload of another size. */
  function SizeErrors(g: Log): int {
    g.badLength + |g.frames| - |Delivered(Ecu, g.frames)|
  }

  lemma {:induction false} DeliveredShorter(d: Receiver, frames: seq<Frame>)
    ensures |Delivered(d, frames)| <= |frames|
  {
    if frames != [] {
      DeliveredShorter(d, frames[1..]);
    }
  }

  lemma SizeErrorsAdd(a: Log, b: Log)
    ensures SizeErrors(Then(a, b)) == SizeErrors(a) + SizeErrors(b)
    ensures SizeErrors(a) >= 0
  {
    DeliveredConcat(Ecu, a.frames, b.frames);
    DeliveredShorter(Ecu, a.frames);
  }

  lemma EcuExtraction(b: seq<byte>, s: Step)
    requires OneStep(Ecu, b) == s
    ensures Extract(Ecu, b) ==
            if s.Stuck? then Empty(s.log)
            else if s.log.frames != [] && Wanted(Ecu, s.log.frames[0]) then Got(s.log)
            else
              match Extract(Ecu, s.log.rest)
              case Empty(h) => Empty(Then(s.log, h))
              case Got(h) => Got(Then(s.log, h))
  {
  }

  /** `socket_drv_stats_t` on the receiving side; every field is a `uint32_t`. */
  datatype Stats = Stats(framesOk: uint32, errorsCrc: uint32, errorsSize: uint32,
                         errorsType: uint32, bytesDropped: uint32)

  const NO_STATS := Stats(0, 0, 0, 0, 0)

  /** The statistics after a reading `g`, each reduced to 32 bits. */
  function Count(st: Stats, g: Log): Stats {
    SizeErrorsAdd(g, Nothing([]));
    Stats(Wrap32(st.framesOk + |Delivered(Ecu, g.frames)|), Wrap32(st.errorsCrc + g.badCrc),
          Wrap32(st.errorsSize + SizeErrors(g)), Wrap32(st.errorsType + g.badType),
          Wrap32(st.bytesDropped + g.dropped))
  }

  lemma CountThen(st: Stats, a: Log, b: Log)
    ensures Count(Count(st, a), b) == Count(st, Then(a, b))
  {
    hide Wrap32, SizeErrors;
    DeliveredConcat(Ecu, a.frames, b.frames);
    SizeErrorsAdd(a, b);
    SizeErrorsAdd(b, a);
    WrapAdds(st.framesOk + |Delivered(Ecu, a.frames)|, |Delivered(Ecu, b.frames)|);
    WrapAdds(st.errorsCrc + a.badCrc, b.badCrc);
    WrapAdds(st.errorsSize + SizeErrors(a), SizeErrors(b));
    WrapAdds(st.errorsType + a.badType, b.badType);
    WrapAdds(st.bytesDropped + a.dropped, b.dropped);
  }

  lemma AllSmall(st: Stats)
    ensures Wrap32(st.framesOk) == st.framesOk && Wrap32(st.errorsCrc) == st.errorsCrc
    ensures Wrap32(st.errorsSize) == st.errorsSize && Wrap32(st.errorsType) == st.errorsType
    ensures Wrap32(st.bytesDropped) == st.bytesDropped
  {
    WrapSmall(st.framesOk);
    WrapSmall(st.errorsCrc);
    WrapSmall(st.errorsSize);
    WrapSmall(st.errorsType);
    WrapSmall(st.bytesDropped);
  }

  /** What each verdict adds to the statistics, after `i` bytes were skipped. */
  lemma CountVerdict(st: Stats, v: Verdict, i: nat, c: seq<byte>)
    requires v.BadLength? || v.BadType? || v.BadCrc? ==> |c| >= 2
    requires v.Whole? ==> OVERHEAD + |v.frame.payload| <= |c|
    ensures var skipped := st.(bytesDropped := Wrap32(st.bytesDropped + i));
            Count(st, Consume(v, i, c).log) ==
            match v
            case Incomplete => skipped
            case BadLength => skipped.(errorsSize := Wrap32(st.errorsSize + 1))
            case BadType => skipped.(errorsType := Wrap32(st.errorsType + 1))
            case BadCrc => skipped.(errorsCrc := Wrap32(st.errorsCrc + 1))
            case Whole(f) =>
              if |f.payload| == SENSOR_SIZE then skipped.(framesOk := Wrap32(st.framesOk + 1))
              else skipped.(errorsSize := Wrap32(st.errorsSize + 1))
  {
    hide Wrap32;
    AllSmall(st);
    if v.Whole? {
      DeliveredOne(Ecu, v.frame);
    }
  }

  /** Counting the skipped bytes first and the verdict afterwards is counting both at once. */
  lemma CountLater(st: Stats, v: Verdict, i: nat, c: seq<byte>)
    requires v.BadLength? || v.BadType? || v.BadCrc? ==> |c| >= 2
    requires v.Whole? ==> OVERHEAD + |v.frame.payload| <= |c|
    ensures Count(st.(bytesDropped := Wrap32(st.bytesDropped + i)), Consume(v, 0, c).log) ==
            Count(st, Consume(v, i, c).log)
  {
    hide Count, Wrap32;
    var skipped := st.(bytesDropped := Wrap32(st.bytesDropped + i));
    CountVerdict(st, v, i, c);
    CountVerdict(skipped, v, 0, c);
    WrapSmall(skipped.bytesDropped);
  }

  lemma CountSkip(st: Stats, g: Log)
    requires g.frames == [] && g.badLength == g.badType == g.badCrc == 0
    ensures Count(st, g) == st.(bytesDropped := Wrap32(st.bytesDropped + g.dropped))
  {
    hide Wrap32;
    AllSmall(st);
  }

  lemma CountIgnoresRest(st: Stats, g: Log, h: Log)
    requires h == g.(rest := h.rest)
    ensures Count(st, h) == Count(st, g)
  {
  }

  lemma EmptyStream()
    ensures Then(Nothing([]), Drain(Ecu, [])) == Drain(Ecu, [])
    ensures Count(NO_STATS, Nothing([])) == NO_STATS
  {
    hide Drain;
    NothingThen([], Drain(Ecu, []));
    CountSkip(NO_STATS, Nothing([]));
    WrapSmall(0);
  }

  function Prefixed(g: Log, x: Extraction): Extraction {
    match x
    case Empty(h) => Empty(Then(g, h))
    case Got(h) => Got(Then(g, h))
  }

  lemma FirstPass(st: Stats, b: seq<byte>)
    ensures Count(st, Nothing(b)) == st
    ensures Prefixed(Nothing(b), Extract(Ecu, b)) == Extract(Ecu, b)
  {
    hide Extract, Count;
    CountSkip(st, Nothing(b));
    WrapSmall(st.bytesDropped);
    NothingThen(b, Extract(Ecu, b).log);
  }

  lemma NextPass(st: Stats, g: Log, s: Step)
    requires s == OneStep(Ecu, g.rest)
    ensures Count(Count(st, g), s.log) == Count(st, Then(g, s.log))
    ensures Prefixed(g, Extract(Ecu, g.rest)) ==
            if s.Stuck? then Empty(Then(g, s.log))
            else if s.log.frames != [] && Wanted(Ecu, s.log.frames[0]) then Got(Then(g, s.log))
            else Prefixed(Then(g, s.log), Extract(Ecu, s.log.rest))
    ensures var h := Then(g, s.log);
            && h.rest == s.log.rest
            && (s.log.frames != [] ==> h.frames != [] && h.frames[|h.frames| - 1] == s.log.frames[0])
  {
    hide OneStep, Extract, Count;
    CountThen(st, g, s.log);
    EcuExtraction(g.rest, s);
    ThenAssociates(g, s.log, Extract(Ecu, s.log.rest).log);
  }

  lemma StepKind(d: Receiver, b: seq<byte>)
    ensures var g := OneStep(d, b).log; g.frames != [] ==> AcceptsType(d, g.frames[0].kind)
  {
    hide Judge;
    match FindMagic(b) {
      case None =>
      case Some(i) => StepWithMagic(d, b, i);
    }
  }

  lemma {:induction false} ExtractKind(b: seq<byte>)
    ensures var x := Extract(Ecu, b);
            x.Got? ==> x.log.frames[|x.log.frames| - 1].kind == TYPE_SENSOR
    decreases |b|
  {
    hide OneStep;
    var s := OneStep(Ecu, b);
    StepKind(Ecu, b);
    EcuExtraction(b, s);
    if s.Moved? {
      ExtractKind(s.log.rest);
    }
  }

  /** An extraction from the buffer keeps the reading on course. */
  lemma ExtractionKeepsCourse(fed: seq<byte>, log: Log)
    requires Then(log, Drain(Ecu, log.rest)) == Drain(Ecu, fed)
    ensures var x := Extract(Ecu, log.rest);
            var after := Then(log, x.log);
            && Then(after, Drain(Ecu, after.rest)) == Drain(Ecu, fed)
            && (x.Empty? ==> after == Drain(Ecu, fed))
            && Delivered(Ecu, after.frames) ==
               Delivered(Ecu, log.frames) + if x.Got? then [x.log.frames[|x.log.frames| - 1]] else []
  {
    hide OneStep, Extract, Drain;
    var x := Extract(Ecu, log.rest);
    ExtractAdvances(Ecu, fed, log);
    ExtractDelivers(Ecu, log.rest);
    DeliveredConcat(Ecu, log.frames, x.log.frames);
    if x.Empty? {
      DrainTwice(Ecu, fed);
    }
  }

  /** Bytes that arrive extend the stream and keep the reading on course. */
  lemma ArrivalKeepsCourse(fed: seq<byte>, log: Log, data: seq<byte>)
    requires Then(log, Drain(Ecu, log.rest)) == Drain(Ecu, fed)
    ensures Then(log.(rest := log.rest + data), Drain(Ecu, log.rest + data)) == Drain(Ecu, fed + data)
  {
    hide OneStep, Drain;
    MoreAfter(Ecu, log, data);
    DrainInTwo(Ecu, fed, data);
  }

  /**
   What the next `poll` and `recv` find. Every outcome that makes the driver give up is
   `Failed`; no bytes in a readable socket mean that the peer has closed it.
   */
  datatype Event = Interrupted | Failed | Timeout | Readable(data: seq<byte>)

  function Offered(events: seq<Event>): seq<byte> {
    if events == [] then []
    else (if events[0].Readable? then events[0].data else []) + Offered(events[1..])
  }

  lemma NothingOffered(events: seq<Event>)
    requires events != [] && (events[0].Readable? ==> events[0].data == [])
    ensures Offered(events) == Offered(events[1..])
  {
  }

  /** What `recv` leaves in the socket when it takes `n` of the bytes that are there. */
  function Remaining(events: seq<Event>, n: nat): seq<Event>
    requires events != [] && events[0].Readable? && n <= |events[0].data|
  {
    if n < |events[0].data| then [Readable(events[0].data[n..])] + events[1..] else events[1..]
  }

  lemma RemainingOffers(events: seq<Event>, n: nat)
    requires events != [] && events[0].Readable? && n <= |events[0].data|
    ensures Offered(events) == events[0].data[..n] + Offered(Remaining(events, n))
    ensures |Remaining(events, n)| <= |events|
  {
    var data := events[0].data;
    if n < |data| {
      var left := Remaining(events, n);
      assert left[1..] == events[1..];
      assert Offered(left) == data[n..] + Offered(events[1..]);
      assert data == data[..n] + data[n..];
    } else {
      assert data == data[..n];
    }
  }

  /** `later` is what is left of `script`; the socket may hold only part of its first bytes. */
  ghost predicate LeftOf(script: seq<Event>, later: seq<Event>) {
    && |later| <= |script|
    && (later != [] ==>
          var k := |script| - |later|;
          && later[1..] == script[k + 1..]
          && (later[0] == script[k] ||
              (script[k].Readable? && later[0].Readable? && later[0].data != [])))
  }

  lemma LeftTail(script: seq<Event>, later: seq<Event>)
    requires LeftOf(script, later) && later != []
    ensures LeftOf(script, later[1..])
  {
    var k := |script| - |later|;
    assert later[1..] == script[k + 1..];
    if |later| > 1 {
      assert later[1..][0] == script[k + 1..][0];
      assert later[1..][1..] == script[k + 1..][1..];
    }
  }

  lemma HeadAndTail(e: Event, tail: seq<Event>)
    ensures var s := [e] + tail; s[0] == e && s[1..] == tail
  {
  }

  /** A shorter first answer of the same socket. */
  lemma LeftLess(script: seq<Event>, later: seq<Event>, left: seq<Event>)
    requires LeftOf(script, later) && later != [] && |left| == |later|
    requires left[1..] == later[1..] && later[0].Readable? && left[0].Readable? && left[0].data != []
    ensures LeftOf(script, left)
  {
  }

  lemma LeftPart(script: seq<Event>, later: seq<Event>, n: nat)
    requires LeftOf(script, later) && later != []
    requires later[0].Readable? && n <= |later[0].data| && later[0].data != []
    ensures LeftOf(script, Remaining(later, n))
  {
    hide LeftOf;
    if n < |later[0].data| {
      HeadAndTail(Readable(later[0].data[n..]), later[1..]);
      LeftLess(script, later, Remaining(later, n));
    } else {
      LeftTail(script, later);
    }
  }

  lemma LeftShrinks(script: seq<Event>, later: seq<Event>)
    requires LeftOf(script, later) && later != []
    ensures LeftOf(script, later[1..])
    ensures later[0].Readable? && later[0].data != [] ==>
            forall n: nat :: n <= |later[0].data| ==> LeftOf(script, Remaining(later, n))
    ensures !(later[0].Readable? && later[0].data != []) ==>
            LastUsed(script, later[1..]) == Some(later[0])
  {
    LeftTail(script, later);
    if later[0].Readable? && later[0].data != [] {
      hide LeftOf, Remaining;
      forall n: nat | n <= |later[0].data| ensures LeftOf(script, Remaining(later, n)) {
        LeftPart(script, later, n);
      }
    }
  }

  lemma AllLeft(script: seq<Event>)
    ensures LeftOf(script, script)
  {
  }

  /** The last event that was used up. */
  ghost function LastUsed(script: seq<Event>, later: seq<Event>): Option<Event> {
    if |later| < |script| then Some(script[|script| - |later| - 1]) else None
  }

  lemma SliceOfPrefix(a: array<byte>, n: nat, i: nat, j: nat)
    requires i <= j <= n <= a.Length
    ensures a[i..j] == a[..n][i..j]
  {
  }

  class Driver {
    const rxBuf: array<byte>
    var rxLen: nat
    var stats: Stats

    /** Everything received since the connection was made, and everything read out of it. */
    ghost var fed: seq<byte>
    ghost var log: Log

    ghost predicate Shape()
      reads this
    {
      rxBuf.Length == RX_BUFFER_SIZE && rxLen <= RX_BUFFER_SIZE
    }

    ghost function Held(): seq<byte>
      requires Shape()
      reads this, rxBuf
    {
      rxBuf[..rxLen]
    }

    /**
     What has been read and what is still in the buffer make up the whole stream: reading on
     from here ends where one uninterrupted reading of all bytes would.
     */
    ghost predicate Valid()
      reads this, rxBuf
    {
      && Shape()
      && stats == Count(NO_STATS, log)
      && log.rest == Held()
      && Then(log, Drain(Ecu, Held())) == Drain(Ecu, fed)
    }

    constructor ()
      ensures Valid() && fresh(rxBuf)
      ensures fed == [] && log == Nothing([])
    {
      hide Drain, Count;
      rxBuf := new byte[RX_BUFFER_SIZE];
      rxLen := 0;
      stats := NO_STATS;
      fed, log := [], Nothing([]);
      new;
      EmptyStream();
      assert Held() == [];
    }

    /** `memmove` to the front followed by the shorter length. */
    method Discard(n: nat)
      requires Shape() && n <= rxLen
      modifies this`rxLen, rxBuf
      ensures Shape() && Held() == old(Held())[n..]
    {
      forall k | 0 <= k < rxLen - n {
        rxBuf[k] := rxBuf[n + k];
      }
      rxLen := rxLen - n;
    }

    method Scan() returns (scan: nat, found: bool)
      requires Shape()
      ensures FindMagic(Held()) == if found then Some(scan) else None
    {
      scan := 0;
      while scan + 1 < rxLen
        invariant forall j: nat :: j < scan ==> !MagicAt(Held(), j)
        decreases rxLen - scan
      {
        if rxBuf[scan] == MAGIC_LO && rxBuf[scan + 1] == MAGIC_HI {
          FirstMagic(Held(), scan);
          return scan, true;
        }
        scan := scan + 1;
      }
      assert forall j: nat :: !MagicAt(Held(), j);
      found := false;
    }

    /** The checks on a buffer that starts with the magic, in the driver's order. */
    method Examine() returns (v: Verdict)
      requires Shape() && rxLen >= 2
      ensures v == Judge(Ecu, Held())
    {
      if rxLen < HEADER_SIZE + CRC_SIZE {
        return Incomplete;
      }
      var length := LengthOf(rxBuf[3], rxBuf[4]);
      if length > MAX_PAYLOAD {
        return BadLength;
      }
      if rxBuf[2] != TYPE_SENSOR {
        return BadType;
      }
      if rxLen < HEADER_SIZE + length + CRC_SIZE {
        return Incomplete;
      }
      var matches := CheckCrc(length);
      if !matches {
        return BadCrc;
      }
      SliceOfPrefix(rxBuf, rxLen, HEADER_SIZE, HEADER_SIZE + length);
      return Whole(Frame(rxBuf[2], rxBuf[HEADER_SIZE..HEADER_SIZE + length]));
    }

    method CheckCrc(length: nat) returns (matches: bool)
      requires Shape() && OVERHEAD + length <= rxLen
      ensures matches == CrcMatches(Held(), length)
    {
      SliceOfPrefix(rxBuf, rxLen, 2, HEADER_SIZE + length);
      var crcRecv := Field(rxBuf[HEADER_SIZE + length], rxBuf[HEADER_SIZE + length + 1]);
      var crcCalc := Crc.Crc16Controller(rxBuf[2..HEADER_SIZE + length]);
      matches := crcRecv == crcCalc;
    }

    /** Drop what precedes the magic; without one only the last byte is kept. */
    method SkipToMagic() returns (found: bool)
      requires Shape()
      modifies this`rxLen, this`stats, rxBuf
      ensures Shape()
      ensures match FindMagic(old(Held()))
              case Some(i) =>
                found && Held() == old(Held())[i..] &&
                stats == old(stats).(bytesDropped := Wrap32(old(stats).bytesDropped + i))
              case None =>
                var g := OneStep(Ecu, old(Held())).log;
                !found && OneStep(Ecu, old(Held())).Stuck? && Held() == g.rest &&
                g.frames == [] && stats == Count(old(stats), g)
    {
      hide OneStep, FindMagic, Count, Wrap32;
      ghost var whole := Held();
      var scan;
      scan, found := Scan();
      if found {
        WrapSmall(stats.bytesDropped);
        if scan > 0 {
          stats := stats.(bytesDropped := Wrap32(stats.bytesDropped + scan));
          Discard(scan);
        }
      } else {
        var keep := if rxLen > 0 then 1 else 0;
        if keep > 0 {
          StepWithoutMagic(Ecu, whole);
          rxBuf[0] := rxBuf[rxLen - 1];
        } else {
          StuckOnEmpty(Ecu);
        }
        CountSkip(stats, OneStep(Ecu, whole).log);
        stats := stats.(bytesDropped := Wrap32(stats.bytesDropped + (rxLen - keep)));
        rxLen := keep;
      }
    }

    /** Act on a verdict: slide past the magic, or remove the frame and perhaps deliver it. */
    method Act(v: Verdict) returns (moved: bool, out: Option<seq<byte>>)
      requires Shape()
      requires v.BadLength? || v.BadType? || v.BadCrc? ==> rxLen >= 2
      requires v.Whole? ==> OVERHEAD + |v.frame.payload| <= rxLen
      modifies this`rxLen, this`stats, rxBuf
      ensures Shape()
      ensures var s := Consume(v, 0, old(Held()));
              && Held() == s.log.rest
              && stats == Count(old(stats), s.log)
              && moved == s.Moved?
              && out == if v.Whole? && Wanted(Ecu, v.frame) then Some(v.frame.payload) else None
    {
      hide Count, Wrap32;
      CountVerdict(stats, v, 0, Held());
      WrapSmall(stats.bytesDropped);
      out := None;
      match v {
        case Incomplete =>
          return false, None;
        case BadLength =>
          stats := stats.(errorsSize := Wrap32(stats.errorsSize + 1));
          Discard(2);
        case BadType =>
          stats := stats.(errorsType := Wrap32(stats.errorsType + 1));
          Discard(2);
        case BadCrc =>
          stats := stats.(errorsCrc := Wrap32(stats.errorsCrc + 1));
          Discard(2);
        case Whole(f) =>
          Discard(OVERHEAD + |f.payload|);
          if |f.payload| != SENSOR_SIZE {
            stats := stats.(errorsSize := Wrap32(stats.errorsSize + 1));
          } else {
            stats := stats.(framesOk := Wrap32(stats.framesOk + 1));
            out := Some(f.payload);
          }
      }
      moved := true;
    }

    /** One pass of the driver's loop. */
    method Decide() returns (moved: bool, out: Option<seq<byte>>)
      requires Shape()
      modifies this`rxLen, this`stats, rxBuf
      ensures Shape()
      ensures var s := OneStep(Ecu, old(Held()));
              && Held() == s.log.rest
              && stats == Count(old(stats), s.log)
              && moved == s.Moved?
              && out == if s.log.frames != [] && Wanted(Ecu, s.log.frames[0])
                        then Some(s.log.frames[0].payload) else None
    {
      hide OneStep, Judge, FindMagic, Count, Wrap32;
      ghost var whole := Held();
      var found := SkipToMagic();
      if !found {
        return false, None;
      }
      ghost var i := FindMagic(whole).value;
      StepWithMagic(Ecu, whole, i);
      var v := Examine();
      moved, out := Act(v);
      CountLater(old(stats), v, i, whole[i..]);
    }

    /** `try_extract_frame`: 1 with a payload, or 0 when the buffer holds no further frame. */
    method TryExtractFrame() returns (rc: int, out: seq<byte>)
      requires Shape()
      modifies this`rxLen, this`stats, rxBuf
      ensures Shape()
      ensures var x := Extract(Ecu, old(Held()));
              && Held() == x.log.rest
              && stats == Count(old(stats), x.log)
              && if x.Got? then
                   rc == 1 && |out| == SENSOR_SIZE && out == x.log.frames[|x.log.frames| - 1].payload
                 else
                   rc == 0 && rxLen < OVERHEAD + MAX_PAYLOAD
    {
      hide OneStep, Count, Extract, Judge, FindMagic, Then, Prefixed;
      ghost var whole, g, st := Held(), Nothing(Held()), stats;
      FirstPass(st, whole);
      while true
        invariant Shape() && Held() == g.rest && stats == Count(st, g)
        invariant Extract(Ecu, whole) == Prefixed(g, Extract(Ecu, g.rest))
        decreases rxLen
      {
        ghost var s := OneStep(Ecu, Held());
        NextPass(st, g, s);
        var moved, payload := Decide();
        g := Then(g, s.log);
        if !moved {
          return 0, [];
        }
        if payload.Some? {
          return 1, payload.value;
        }
      }
    }

    /** `try_extract_frame` on a driver whose history is known. */
    method Extraction() returns (rc: int, out: seq<byte>)
      requires Valid()
      modifies this`rxLen, this`stats, this`log, rxBuf
      ensures Valid()
      ensures rc == 1 || rc == 0
      ensures rc == 1 ==> |out| == SENSOR_SIZE &&
                          Delivered(Ecu, log.frames) ==
                          Delivered(Ecu, old(log).frames) + [Frame(TYPE_SENSOR, out)]
      ensures rc == 0 ==> log == Drain(Ecu, fed) && rxLen <= 70 &&
                          Delivered(Ecu, log.frames) == Delivered(Ecu, old(log).frames)
    {
      hide OneStep, Extract, Drain, Delivered, Count;
      ExtractionKeepsCourse(fed, log);
      ExtractKind(Held());
      CountThen(NO_STATS, log, Extract(Ecu, Held()).log);
      ghost var x := Extract(Ecu, Held());
      rc, out := TryExtractFrame();
      log := Then(log, x.log);
    }

    /** `recv` appends to the buffer. */
    method Receive(data: seq<byte>)
      requires Valid() && rxLen + |data| <= RX_BUFFER_SIZE
      modifies this`rxLen, this`fed, this`log, rxBuf
      ensures Valid() && fed == old(fed) + data && rxLen == old(rxLen) + |data|
      ensures log == old(log).(rest := old(log).rest + data)
    {
      hide OneStep, Drain, Count;
      ArrivalKeepsCourse(fed, log, data);
      forall k | 0 <= k < |data| {
        rxBuf[rxLen + k] := data[k];
      }
      rxLen := rxLen + |data|;
      fed := fed + data;
      log := log.(rest := log.rest + data);
      assert Held() == old(Held()) + data;
      CountIgnoresRest(NO_STATS, old(log), log);
    }

    /** One `recv` of as many bytes as fit, and an attempt to extract. */
    method ReadOn(later: seq<Event>) returns (rc: int, out: seq<byte>, left: seq<Event>)
      requires Valid() && log == Drain(Ecu, fed) && rxLen <= 70
      requires later != [] && later[0].Readable? && later[0].data != []
      modifies this, rxBuf
      ensures Valid()
      ensures rc == 1 || rc == 0
      ensures rc == 1 ==> |out| == SENSOR_SIZE &&
                          Delivered(Ecu, log.frames) ==
                          Delivered(Ecu, old(log).frames) + [Frame(TYPE_SENSOR, out)]
      ensures rc == 0 ==> log == Drain(Ecu, fed) && rxLen <= 70 &&
                          Delivered(Ecu, log.frames) == Delivered(Ecu, old(log).frames)
      ensures exists n: nat :: 0 < n <= |later[0].data| && left == Remaining(later, n)
      ensures fed + Offered(left) == old(fed) + Offered(later)
      ensures |Offered(left)| < |Offered(later)| && |left| <= |later|
    {
      hide OneStep, Extract, Drain, Delivered, Count, Offered, Judge, FindMagic;
      var data := later[0].data;
      if rxLen >= RX_BUFFER_SIZE {
        assert false;
      }
      assert RX_BUFFER_SIZE - rxLen >= 186;
      var n: nat := if |data| <= RX_BUFFER_SIZE - rxLen then |data| else RX_BUFFER_SIZE - rxLen;
      RemainingOffers(later, n);
      left := Remaining(later, n);
      Receive(data[..n]);
      rc, out := Extraction();
    }

    method RecvSensor(script: seq<Event>) returns (rc: int, out: seq<byte>, later: seq<Event>)
      requires Valid()
      modifies this, rxBuf
      ensures Valid()
      ensures rc == 1 || rc == 0 || rc == -1
      // a frame is handed out exactly when the call says so, and in stream order
      ensures rc == 1 ==> |out| == 18 &&
                          Delivered(Ecu, log.frames) ==
                          Delivered(Ecu, old(log).frames) + [Frame(TYPE_SENSOR, out)]
      ensures rc != 1 ==> Delivered(Ecu, log.frames) == Delivered(Ecu, old(log).frames)
      // otherwise everything received has been read
      ensures rc != 1 ==> log == Drain(Ecu, fed) && rxLen <= 70
      // the call ends without a frame on a timeout, on a failure, or when the peer has closed
      ensures rc == -1 ==> LastUsed(script, later) in {Some(Failed), Some(Readable([]))}
      ensures rc == 0 ==> later == [] || LastUsed(script, later) == Some(Timeout)
      // no byte of the socket is skipped
      ensures fed + Offered(later) == old(fed) + Offered(script)
    {
      hide OneStep, Extract, Drain, Delivered, Count, Offered, Judge, FindMagic, LeftOf, LastUsed, Remaining;
      later := script;
      AllLeft(script);
      rc, out := Extraction();
      if rc == 1 {
        return;
      }
      while later != []
        invariant Valid() && log == Drain(Ecu, fed) && rxLen <= 70
        invariant Delivered(Ecu, log.frames) == Delivered(Ecu, old(log).frames)
        invariant fed + Offered(later) == old(fed) + Offered(script)
        invariant LeftOf(script, later)
        decreases |later| + |Offered(later)|
      {
        LeftShrinks(script, later);
        match later[0] {
          case Interrupted =>
            NothingOffered(later);
            later := later[1..];
          case Failed =>
            NothingOffered(later);
            return -1, [], later[1..];
          case Timeout =>
            NothingOffered(later);
            return 0, [], later[1..];
          case Readable(data) =>
            if data == [] {
              NothingOffered(later);
              return -1, [], later[1..];
            }
            rc, out, later := ReadOn(later);
            if rc == 1 {
              return;
            }
        }
      }
      rc, out := 0, [];
    }
  }
}
