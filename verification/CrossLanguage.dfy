/** The two receivers on one stream, and the controller's own frames at the plant. */
module CrossLanguage {
  import Crc
  import opened UInt32
  import opened Protocol
  import opened StreamParse
  import opened StreamTheorems
  import FrameDecoder
  import SocketDrv

  /** The frames whose payload has the eighteen bytes of a sensor sample. */
  function OfSensorSize(frames: seq<Frame>): seq<Frame> {
    if frames == [] then []
    else (if |frames[0].payload| == 18 then [frames[0]] else []) + OfSensorSize(frames[1..])
  }

  /** Frames with a right CRC that are not sensor samples by their size. */
  function WrongSizes(frames: seq<Frame>): nat {
    if frames == [] then 0
    else (if |frames[0].payload| == 18 then 0 else 1) + WrongSizes(frames[1..])
  }

  lemma {:induction false} EcuKeepsSensorSize(frames: seq<Frame>)
    ensures Delivered(Ecu, frames) == OfSensorSize(frames)
    ensures |frames| - |Delivered(Ecu, frames)| == WrongSizes(frames)
  {
    if frames != [] {
      EcuKeepsSensorSize(frames[1..]);
    }
  }

  /**
   On a stream that announces no actuator frame, the driver hands out exactly the plant
   decoder's frames of sensor size. CRC errors, type errors, dropped bytes and the bytes left
   over are the same; the driver counts a size error more for each frame of another size.
   */
  lemma SameStream(s: seq<byte>)
    requires NoActuator(s)
    ensures var plant, ecu := Drain(Plant, s), Drain(Ecu, s);
            && Delivered(Ecu, ecu.frames) == OfSensorSize(plant.frames)
            && ecu.badCrc == plant.badCrc && ecu.badType == plant.badType
            && ecu.dropped == plant.dropped && ecu.rest == plant.rest
            && SocketDrv.SizeErrors(ecu) == plant.badLength + WrongSizes(plant.frames)
  {
    SameLog(s);
    EcuKeepsSensorSize(Drain(Plant, s).frames);
  }

  /** The same on the two objects, once both have read everything they were given. */
  lemma SameObjects(plant: FrameDecoder.Decoder, ecu: SocketDrv.Driver)
    requires plant.Valid() && ecu.Valid()
    requires plant.Tally().(frames := plant.delivered) == Drain(Plant, Fed(plant.ops))
    requires ecu.log == Drain(Ecu, ecu.fed) && ecu.fed == Fed(plant.ops)
    requires NoActuator(ecu.fed)
    ensures Delivered(Ecu, ecu.log.frames) == OfSensorSize(plant.delivered)
    ensures ecu.Held() == plant.buf
    ensures ecu.stats.framesOk == Wrap32(|OfSensorSize(plant.delivered)|)
    ensures ecu.stats.errorsCrc == Wrap32(plant.errorsCrc)
    ensures ecu.stats.errorsType == Wrap32(plant.errorsType)
    ensures ecu.stats.bytesDropped == Wrap32(plant.bytesDropped)
    ensures ecu.stats.errorsSize == Wrap32(plant.errorsSize + WrongSizes(plant.delivered))
  {
    hide OneStep, Drain, SocketDrv.SizeErrors;
    SameStream(ecu.fed);
  }

  // ---- the controller's encoder ----

  lemma ArrayIsWire(f: Frame, w: seq<byte>)
    requires |f.payload| == ACTUATOR_SIZE && |w| == OVERHEAD + ACTUATOR_SIZE
    requires w[0] == MAGIC_LO && w[1] == MAGIC_HI && w[2] == f.kind
    requires w[3] == LowByte(LengthField(ACTUATOR_SIZE)) && w[4] == HighByte(LengthField(ACTUATOR_SIZE))
    requires w[HEADER_SIZE..HEADER_SIZE + ACTUATOR_SIZE] == f.payload
    requires var crc := Crc.Of(w[2..HEADER_SIZE + ACTUATOR_SIZE]);
             w[HEADER_SIZE + ACTUATOR_SIZE] == LowByte(crc) &&
             w[HEADER_SIZE + ACTUATOR_SIZE + 1] == HighByte(crc)
    ensures w == Wire(f)
  {
    var n := HEADER_SIZE + ACTUATOR_SIZE;
    assert w[2..n] == [w[2], w[3], w[4]] + w[HEADER_SIZE..n];
    assert w == [w[0], w[1]] + w[2..n] + [w[n], w[n + 1]];
  }

  lemma TwelveBytes()
    ensures LowByte(LengthField(ACTUATOR_SIZE)) == 12 && HighByte(LengthField(ACTUATOR_SIZE)) == 0
  {
    LengthBytes(12, 0, ACTUATOR_SIZE);
    assert Field(12, 0) == 12;
  }

  /** Appending the CRC after header and payload are in place completes the wire form. */
  lemma CrcCompletes(payload: seq<byte>, before: seq<byte>, after: seq<byte>)
    requires |payload| == ACTUATOR_SIZE && |before| == |after| == OVERHEAD + ACTUATOR_SIZE
    requires before[..HEADER_SIZE] == [MAGIC_LO, MAGIC_HI, TYPE_ACTUATOR, 12, 0]
    requires before[HEADER_SIZE..HEADER_SIZE + ACTUATOR_SIZE] == payload
    requires var crc := Crc.Of(before[2..HEADER_SIZE + ACTUATOR_SIZE]);
             after == before[..HEADER_SIZE + ACTUATOR_SIZE] + [LowByte(crc), HighByte(crc)]
    ensures after == Wire(Frame(TYPE_ACTUATOR, payload))
  {
    hide Wire, LowByte, HighByte, LengthField;
    TwelveBytes();
    assert after[2..HEADER_SIZE + ACTUATOR_SIZE] == before[2..HEADER_SIZE + ACTUATOR_SIZE];
    assert after[HEADER_SIZE..HEADER_SIZE + ACTUATOR_SIZE] == payload;
    assert after[..HEADER_SIZE] == before[..HEADER_SIZE];
    assert after[0] == before[..HEADER_SIZE][0] && after[1] == before[..HEADER_SIZE][1];
    assert after[2] == before[..HEADER_SIZE][2] && after[3] == before[..HEADER_SIZE][3];
    assert after[4] == before[..HEADER_SIZE][4];
    ArrayIsWire(Frame(TYPE_ACTUATOR, payload), after);
  }

  /** The buffer that `socket_drv_send_actuator` fills and sends. */
  method EncodeActuator(payload: seq<byte>) returns (buf: array<byte>)
    requires |payload| == ACTUATOR_SIZE
    ensures fresh(buf) && buf[..] == Wire(Frame(TYPE_ACTUATOR, payload))
  {
    hide Wire, LowByte, HighByte, LengthField;
    buf := new byte[OVERHEAD + ACTUATOR_SIZE];
    forall k | 0 <= k < ACTUATOR_SIZE {
      buf[HEADER_SIZE + k] := payload[k];
    }
    buf[0] := 0x55;
    buf[1] := 0xAA;
    buf[2] := TYPE_ACTUATOR;
    buf[3] := 12;
    buf[4] := 0;
    ghost var before := buf[..];
    assert before[..HEADER_SIZE] == [MAGIC_LO, MAGIC_HI, TYPE_ACTUATOR, 12, 0];
    assert before[HEADER_SIZE..HEADER_SIZE + ACTUATOR_SIZE] == payload;
    assert before[2..HEADER_SIZE + ACTUATOR_SIZE] == buf[2..HEADER_SIZE + ACTUATOR_SIZE];
    var crc := Crc.Crc16Controller(buf[2..HEADER_SIZE + ACTUATOR_SIZE]);
    buf[HEADER_SIZE + ACTUATOR_SIZE] := LowByte(crc);
    buf[HEADER_SIZE + ACTUATOR_SIZE + 1] := HighByte(crc);
    assert buf[..] == before[..HEADER_SIZE + ACTUATOR_SIZE] + [LowByte(crc), HighByte(crc)];
    CrcCompletes(payload, before, buf[..]);
  }

  /** What the controller sends, the plant decodes: any number of frames, any payloads. */
  lemma ActuatorRoundTrip(payloads: seq<seq<byte>>)
    requires forall p <- payloads :: |p| == ACTUATOR_SIZE
    ensures var frames := seq(|payloads|, k requires 0 <= k < |payloads| => Frame(TYPE_ACTUATOR, payloads[k]));
            (forall f <- frames :: |f.payload| <= MAX_PAYLOAD) &&
            Drain(Plant, WireAll(frames)) == Log(frames, 0, 0, 0, 0, [])
  {
    var frames := seq(|payloads|, k requires 0 <= k < |payloads| => Frame(TYPE_ACTUATOR, payloads[k]));
    forall f | f in frames ensures |f.payload| == ACTUATOR_SIZE && f.kind == TYPE_ACTUATOR {
      var k :| 0 <= k < |frames| && frames[k] == f;
      assert payloads[k] in payloads;
    }
    RoundTrip(Plant, frames);
  }
}
