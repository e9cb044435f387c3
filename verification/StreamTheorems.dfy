/**
 The promises of the framing layer: every byte is accounted for, the encoder and the parser
 undo each other, and the resynchronising scan finds exactly what a naive scan finds.
 */
module StreamTheorems {
  import Crc
  import opened Protocol
  import opened StreamParse

  // ---- every byte is accounted for ----

  function WireBytes(frames: seq<Frame>): nat {
    if frames == [] then 0 else OVERHEAD + |frames[0].payload| + WireBytes(frames[1..])
  }

  lemma {:induction false} WireBytesConcat(a: seq<Frame>, b: seq<Frame>)
    ensures WireBytes(a + b) == WireBytes(a) + WireBytes(b)
  {
    if a == [] {
      assert a + b == b;
    } else {
      assert (a + b)[1..] == a[1..] + b;
      WireBytesConcat(a[1..], b);
    }
  }

  function Accounted(g: Log): nat {
    |g.rest| + g.dropped + 2 * (g.badLength + g.badType + g.badCrc) + WireBytes(g.frames)
  }

  lemma OneFrameBytes(f: Frame)
    ensures WireBytes([f]) == OVERHEAD + |f.payload|
  {
    assert [f][1..] == [];
    assert WireBytes([f][1..]) == 0;
  }

  lemma StepAccounts(d: Receiver, b: seq<byte>)
    ensures Accounted(OneStep(d, b).log) == |b|
  {
    match FindMagic(b) {
      case None =>
      case Some(i) =>
        var v := Judge(d, b[i..]);
        if v.Whole? {
          OneFrameBytes(v.frame);
        }
    }
  }

  lemma {:induction false} Conservation(d: Receiver, b: seq<byte>)
    ensures Accounted(Drain(d, b)) == |b|
    decreases |b|
  {
    hide OneStep;
    var s := OneStep(d, b);
    StepAccounts(d, b);
    if s.Moved? {
      Conservation(d, s.log.rest);
      WireBytesConcat(s.log.frames, Drain(d, s.log.rest).frames);
    }
  }

  // ---- printer and parser ----

  lemma WireLayout(f: Frame, more: seq<byte>)
    requires |f.payload| <= MAX_PAYLOAD
    ensures var b := Wire(f) + more;
            var n := |f.payload|;
            && MagicAt(b, 0)
            && b[2] == f.kind
            && b[3] == LowByte(LengthField(n)) && b[4] == HighByte(LengthField(n))
            && b[HEADER_SIZE..HEADER_SIZE + n] == f.payload
            && b[2..HEADER_SIZE + n] == Body(f)
            && b[HEADER_SIZE + n] == LowByte(Crc.Of(Body(f)))
            && b[HEADER_SIZE + n + 1] == HighByte(Crc.Of(Body(f)))
  {
    hide LowByte, HighByte, LengthField, Crc.Of;
    var n := |f.payload|;
    var body := Body(f);
    var crc := Crc.Of(body);
    var b := Wire(f) + more;
    assert b == ([MAGIC_LO, MAGIC_HI] + body) + ([LowByte(crc), HighByte(crc)] + more);
    assert |body| == 3 + n;
    assert forall k :: 0 <= k < 3 + n ==> b[2 + k] == body[k];
    assert forall k :: 0 <= k < n ==> body[3 + k] == f.payload[k];
  }

  /** The parser undoes the encoder, whatever follows the frame. */
  lemma JudgeWire(d: Receiver, f: Frame, more: seq<byte>)
    requires |f.payload| <= MAX_PAYLOAD && AcceptsType(d, f.kind)
    ensures Judge(d, Wire(f) + more) == Whole(f)
  {
    WireLayout(f, more);
    var b := Wire(f) + more;
    LengthBytes(b[3], b[4], |f.payload|);
    FieldInverse(Crc.Of(Body(f)));
    assert DeclaredLength(b) == |f.payload|;
  }

  lemma ReassembleBody(b: seq<byte>, n: nat)
    requires |b| >= OVERHEAD + n && n <= MAX_PAYLOAD && DeclaredLength(b) == n
    ensures Body(FrameIn(b, n)) == b[2..HEADER_SIZE + n]
  {
    LengthBytes(b[3], b[4], n);
    assert b[2..HEADER_SIZE + n] == [b[2], b[3], b[4]] + b[HEADER_SIZE..HEADER_SIZE + n];
  }

  lemma ReassembleWire(b: seq<byte>, n: nat)
    requires |b| >= OVERHEAD + n && n <= MAX_PAYLOAD && DeclaredLength(b) == n
    requires MagicAt(b, 0) && CrcMatches(b, n)
    ensures Wire(FrameIn(b, n)) == b[..OVERHEAD + n]
  {
    ReassembleBody(b, n);
    var lo, hi := b[HEADER_SIZE + n], b[HEADER_SIZE + n + 1];
    FieldUnique(lo, hi);
    assert b[..OVERHEAD + n] == [b[0], b[1]] + b[2..HEADER_SIZE + n] + [lo, hi];
  }

  /** Conversely, what the parser takes is what the encoder writes for that frame. */
  lemma WholeIsWire(d: Receiver, b: seq<byte>)
    requires MagicAt(b, 0) && Judge(d, b).Whole?
    ensures var f := Judge(d, b).frame;
            AcceptsType(d, f.kind) && Wire(f) <= b
  {
    ReassembleWire(b, DeclaredLength(b));
  }

  // ---- the verdict in numbers ----

  lemma SameWord(a: bv16, b: bv16)
    ensures a == b <==> a as int == b as int
  {
    FieldOfInt(a);
    FieldOfInt(b);
  }

  /** The 16-bit number in two bytes, low byte first. */
  function Number(b: seq<byte>, i: nat): int
    requires i + 1 < |b|
  {
    b[i] as int + 256 * (b[i + 1] as int)
  }

  lemma FieldIsNumber(b: seq<byte>, i: nat)
    requires i + 1 < |b|
    ensures Field(b[i], b[i + 1]) as int == Number(b, i)
  {
    hide Field;
    FieldInNumbers(b[i], b[i + 1]);
  }

  lemma LengthInNumbers(b: seq<byte>)
    requires |b| >= 7
    ensures DeclaredLength(b) == Number(b, 3)
  {
    hide Field, Number;
    FieldIsNumber(b, 3);
  }

  lemma CrcInNumbers(b: seq<byte>, n: nat)
    requires |b| >= n + 7
    ensures CrcMatches(b, n) <==> Number(b, n + 5) == Crc.Of(b[2..n + 5]) as int
  {
    hide Field, Crc.Of, Number;
    FieldIsNumber(b, n + 5);
    SameWord(Field(b[n + 5], b[n + 6]), Crc.Of(b[2..n + 5]));
  }

  /** The types a receiver takes: the plant sensor and actuator frames, the ECU sensor frames. */
  predicate Known(d: Receiver, kind: byte) {
    kind == 1 || (d == Plant && kind == 2)
  }

  /**
   What a receiver makes of seven bytes or more behind a magic: the declared length is the first
   thing it looks at, then the type, then whether all is there, then the CRC.
   */
  lemma VerdictInNumbers(d: Receiver, b: seq<byte>)
    requires |b| >= 7
    ensures var n := Number(b, 3);
            var v := Judge(d, b);
            && (v.BadLength? <==> n > 64)
            && (v.BadType? <==> n <= 64 && !Known(d, b[2]))
            && (v.Incomplete? <==> 0 <= n <= 64 && Known(d, b[2]) && |b| < n + 7)
            && (v.Whole? <==> 0 <= n <= 64 && Known(d, b[2]) && |b| >= n + 7 &&
                              Number(b, n + 5) == Crc.Of(b[2..n + 5]) as int)
            && (v.Whole? ==> v.frame == Frame(b[2], b[5..n + 5]))
  {
    hide CrcMatches, DeclaredLength, Number, Crc.Of;
    LengthInNumbers(b);
    var n := DeclaredLength(b);
    if |b| >= n + 7 {
      CrcInNumbers(b, n);
    }
  }

  lemma StepTakesKnown(d: Receiver, b: seq<byte>)
    ensures forall f <- OneStep(d, b).log.frames :: Known(d, f.kind) && |f.payload| <= 64
  {
    hide Judge;
    match FindMagic(b) {
      case None =>
      case Some(i) => StepWithMagic(d, b, i);
    }
  }

  /** Whatever the bytes, only known types and payloads of at most 64 bytes come out. */
  lemma {:induction false} OnlyKnownFrames(d: Receiver, b: seq<byte>)
    ensures forall f <- Drain(d, b).frames :: Known(d, f.kind) && |f.payload| <= 64
    decreases |b|
  {
    hide OneStep;
    StepTakesKnown(d, b);
    var s := OneStep(d, b);
    if s.Moved? {
      OnlyKnownFrames(d, s.log.rest);
    }
  }

  // ---- round trip of whole streams ----

  ghost predicate Sendable(d: Receiver, frames: seq<Frame>) {
    forall f <- frames :: |f.payload| <= MAX_PAYLOAD && AcceptsType(d, f.kind)
  }

  function WireAll(frames: seq<Frame>): seq<byte>
    requires forall f <- frames :: |f.payload| <= MAX_PAYLOAD
  {
    if frames == [] then [] else Wire(frames[0]) + WireAll(frames[1..])
  }

  lemma StepOnWire(d: Receiver, f: Frame, more: seq<byte>)
    requires |f.payload| <= MAX_PAYLOAD && AcceptsType(d, f.kind)
    ensures OneStep(d, Wire(f) + more) == Moved(Log([f], 0, 0, 0, 0, more))
  {
    var b := Wire(f) + more;
    WireLayout(f, more);
    FirstMagic(b, 0);
    assert b[0..] == b;
    JudgeWire(d, f, more);
    StepWithMagic(d, b, 0);
    assert b[OVERHEAD + |f.payload|..] == more;
  }

  lemma {:induction false} RoundTrip(d: Receiver, frames: seq<Frame>)
    requires Sendable(d, frames)
    ensures Drain(d, WireAll(frames)) == Log(frames, 0, 0, 0, 0, [])
  {
    hide OneStep;
    if frames == [] {
      StuckOnEmpty(d);
    } else {
      StepOnWire(d, frames[0], WireAll(frames[1..]));
      RoundTrip(d, frames[1..]);
      assert [frames[0]] + frames[1..] == frames;
    }
  }

  /** What a caller asks the encoder to send. */
  datatype Message = Message(kind: int, payload: seq<byte>)

  ghost predicate Encodable(messages: seq<Message>) {
    forall m <- messages :: EncodeFrame(m.kind, m.payload).Ok?
  }

  function EncodeAll(messages: seq<Message>): seq<byte>
    requires Encodable(messages)
  {
    if messages == [] then []
    else
      assert messages[0] in messages;
      EncodeFrame(messages[0].kind, messages[0].payload).value + EncodeAll(messages[1..])
  }

  lemma {:induction false} EncodeAllIsWireAll(messages: seq<Message>, frames: seq<Frame>)
    requires Encodable(messages) && |frames| == |messages|
    requires forall k :: 0 <= k < |frames| ==>
               messages[k].kind in {1, 2} &&
               frames[k] == Frame(KindByte(messages[k].kind), messages[k].payload)
    ensures Sendable(Plant, frames) && EncodeAll(messages) == WireAll(frames)
  {
    hide Wire;
    if messages != [] {
      assert messages[0] in messages;
      EncodeAllIsWireAll(messages[1..], frames[1..]);
      assert frames == [frames[0]] + frames[1..];
    }
  }

  /**
   Whatever the encoder accepts, in any number, the plant's decoder returns unchanged, type number
   and payload, and counts nothing.
   */
  lemma EncoderRoundTrip(messages: seq<Message>)
    requires Encodable(messages)
    ensures var g := Drain(Plant, EncodeAll(messages));
            && |g.frames| == |messages|
            && (forall k :: 0 <= k < |messages| ==>
                  g.frames[k].kind as int == messages[k].kind && g.frames[k].payload == messages[k].payload)
            && g == Log(g.frames, 0, 0, 0, 0, [])
  {
    hide Drain;
    forall k | 0 <= k < |messages| ensures messages[k].kind in {1, 2} {
      assert messages[k] in messages;
    }
    var frames := seq(|messages|, k requires 0 <= k < |messages| =>
                        Frame(KindByte(messages[k].kind), messages[k].payload));
    EncodeAllIsWireAll(messages, frames);
    RoundTrip(Plant, frames);
  }

  /** Garbage without a magic pair in front of the first frame only counts as dropped. */
  lemma RoundTripAfterGarbage(d: Receiver, garbage: seq<byte>, frames: seq<Frame>)
    requires Sendable(d, frames) && frames != []
    requires forall j: nat :: !MagicAt(garbage, j)
    ensures Drain(d, garbage + WireAll(frames)) == Log(frames, 0, 0, 0, |garbage|, [])
  {
    hide OneStep;
    var w := WireAll(frames);
    var s := garbage + w;
    WireLayout(frames[0], WireAll(frames[1..]));
    forall j: nat | j < |garbage| ensures !MagicAt(s, j) {
      if j + 1 < |garbage| {
        MagicMore(garbage, w, j);
      } else {
        assert s[j + 1] == w[0] == MAGIC_LO;
      }
    }
    assert s[|garbage|..] == w;
    DrainSkip(d, s, |garbage|);
    RoundTrip(d, frames);
    assert [] + frames == frames;
  }

  // ---- any chunks, drained at any time ----

  datatype Op = Feed(data: seq<byte>) | DrainNow

  function Fed(ops: seq<Op>): seq<byte> {
    if ops == [] then []
    else
      var last := ops[|ops| - 1];
      Fed(ops[..|ops| - 1]) + if last.Feed? then last.data else []
  }

  /** Everything a receiver has logged after a schedule; `rest` is its buffer. */
  function After(d: Receiver, ops: seq<Op>): Log {
    if ops == [] then Nothing([])
    else
      var g := After(d, ops[..|ops| - 1]);
      match ops[|ops| - 1]
      case Feed(data) => g.(rest := g.rest + data)
      case DrainNow => Then(g, Drain(d, g.rest))
  }

  lemma DrainTwice(d: Receiver, b: seq<byte>)
    ensures Then(Drain(d, b), Drain(d, Drain(d, b).rest)) == Drain(d, b)
  {
    assert b + [] == b && Drain(d, b).rest + [] == Drain(d, b).rest;
    DrainInTwo(d, b, []);
  }

  lemma MoreAfter(d: Receiver, g: Log, data: seq<byte>)
    ensures Then(g.(rest := g.rest + data), Drain(d, g.rest + data)) ==
            Then(Then(g, Drain(d, g.rest)), Drain(d, Then(g, Drain(d, g.rest)).rest + data))
  {
    DrainInTwo(d, g.rest, data);
    ThenAssociates(g, Drain(d, g.rest), Drain(d, Drain(d, g.rest).rest + data));
  }

  /** However the stream is cut and whenever it is drained, a last drain logs the same. */
  lemma {:induction false} ChunkIndependence(d: Receiver, ops: seq<Op>)
    ensures After(d, ops + [DrainNow]) == Drain(d, Fed(ops))
  {
    hide OneStep;
    assert (ops + [DrainNow])[..|ops|] == ops;
    if ops == [] {
      NothingThen([], Drain(d, []));
    } else {
      var init := ops[..|ops| - 1];
      var g := After(d, init);
      ChunkIndependence(d, init);
      assert (init + [DrainNow])[..|init|] == init;
      match ops[|ops| - 1] {
        case Feed(data) =>
          MoreAfter(d, g, data);
          DrainInTwo(d, Fed(init), data);
        case DrainNow =>
          ThenAssociates(g, Drain(d, g.rest), Drain(d, Drain(d, g.rest).rest));
          DrainTwice(d, g.rest);
          assert Fed(ops) == Fed(init);
      }
    }
  }

  /** At every moment of every schedule, no byte is lost or counted twice. */
  lemma {:induction false} ConservationAlways(d: Receiver, ops: seq<Op>)
    ensures Accounted(After(d, ops)) == |Fed(ops)|
  {
    hide OneStep;
    if ops != [] {
      var init := ops[..|ops| - 1];
      ConservationAlways(d, init);
      var g := After(d, init);
      Conservation(d, g.rest);
      WireBytesConcat(g.frames, Drain(d, g.rest).frames);
    }
  }

  // ---- one stream, two receivers ----

  /** The stream never announces an actuator frame. */
  ghost predicate NoActuator(s: seq<byte>) {
    forall j: nat :: MagicAt(s, j) && j + 2 < |s| ==> s[j + 2] != TYPE_ACTUATOR
  }

  lemma SameStep(s: seq<byte>)
    requires NoActuator(s)
    ensures OneStep(Plant, s) == OneStep(Ecu, s)
  {
    match FindMagic(s) {
      case None =>
      case Some(i) =>
        var c := s[i..];
        assert |c| >= OVERHEAD ==> c[2] != TYPE_ACTUATOR;
    }
  }

  lemma StepLeavesSuffix(d: Receiver, b: seq<byte>)
    ensures var r := OneStep(d, b).log.rest; r == b[|b| - |r|..]
  {
    match FindMagic(b) {
      case None =>
      case Some(i) =>
    }
  }

  lemma NoActuatorInSuffix(s: seq<byte>, k: nat)
    requires NoActuator(s) && k <= |s|
    ensures NoActuator(s[k..])
  {
    forall j: nat | MagicAt(s[k..], j) && j + 2 < |s[k..]|
      ensures s[k..][j + 2] != TYPE_ACTUATOR
    {
      MagicShift(s, k, j);
      assert s[k..][j + 2] == s[k + j + 2];
    }
  }

  /** On such a stream the two receivers take the same frames and reject the same bytes. */
  lemma {:induction false} SameLog(s: seq<byte>)
    requires NoActuator(s)
    ensures Drain(Plant, s) == Drain(Ecu, s)
    decreases |s|
  {
    hide OneStep;
    SameStep(s);
    var r := OneStep(Plant, s).log.rest;
    StepLeavesSuffix(Plant, s);
    if OneStep(Plant, s).Moved? {
      NoActuatorInSuffix(s, |s| - |r|);
      SameLog(r);
    }
  }
}
