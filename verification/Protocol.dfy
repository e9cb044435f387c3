/**
 The envelope both processes put around a payload:
 magic (55 AA) | type | length, little-endian | payload | CRC, little-endian.
 The CRC covers type, length and payload.
 */
module Protocol {
  import Crc
  import opened Wrappers

  type byte = Crc.byte

  const MAGIC_LO: byte := 0x55
  const MAGIC_HI: byte := 0xAA
  const TYPE_SENSOR: byte := 0x01
  const TYPE_ACTUATOR: byte := 0x02
  const MAX_PAYLOAD := 64
  const HEADER_SIZE := 5
  const CRC_SIZE := 2
  const OVERHEAD := HEADER_SIZE + CRC_SIZE
  const SENSOR_SIZE := 18
  const ACTUATOR_SIZE := 12

  datatype Frame = Frame(kind: byte, payload: seq<byte>)

  // ---- little-endian 16-bit fields ----

  function LowByte(w: bv16): byte {
    (w & 0xFF) as byte
  }

  function HighByte(w: bv16): byte {
    (w >> 8) as byte
  }

  function Field(lo: byte, hi: byte): bv16 {
    (lo as bv16) | ((hi as bv16) << 8)
  }

  lemma FieldInverse(w: bv16)
    ensures Field(LowByte(w), HighByte(w)) == w
  {
  }

  lemma FieldUnique(lo: byte, hi: byte)
    ensures LowByte(Field(lo, hi)) == lo && HighByte(Field(lo, hi)) == hi
  {
  }

  function LengthOf(lo: byte, hi: byte): nat {
    Field(lo, hi) as nat
  }

  /** A length the encoder accepts fits in seven bits. */
  function LengthField(n: nat): bv16
    requires n <= MAX_PAYLOAD
  {
    (n as bv7) as bv16
  }

  lemma SmallSurvives(n: int)
    requires 0 <= n <= 64
    ensures (n as bv7) as int == n
  {
  }

  lemma Widen(w: bv7)
    ensures (w as bv16) as int == w as int
  {
  }

  lemma LengthFieldInverse(n: nat)
    requires n <= MAX_PAYLOAD
    ensures LengthField(n) as nat == n
  {
    SmallSurvives(n);
    Widen(n as bv7);
  }

  lemma FieldOfInt(w: bv16)
    ensures (w as nat) as bv16 == w
  {
  }

  /** A length field reads back as `n` exactly when its two bytes are those of `n`. */
  lemma LengthBytes(lo: byte, hi: byte, n: nat)
    requires n <= MAX_PAYLOAD
    ensures LengthOf(lo, hi) == n <==>
            lo == LowByte(LengthField(n)) && hi == HighByte(LengthField(n))
  {
    FieldUnique(lo, hi);
    FieldInverse(LengthField(n));
    LengthFieldInverse(n);
    FieldOfInt(Field(lo, hi));
  }

  // ---- encoder ----

  function Body(f: Frame): seq<byte>
    requires |f.payload| <= MAX_PAYLOAD
  {
    var n := LengthField(|f.payload|);
    [f.kind, LowByte(n), HighByte(n)] + f.payload
  }

  function Wire(f: Frame): (w: seq<byte>)
    requires |f.payload| <= MAX_PAYLOAD
    ensures |w| == OVERHEAD + |f.payload|
  {
    var crc := Crc.Of(Body(f));
    [MAGIC_LO, MAGIC_HI] + Body(f) + [LowByte(crc), HighByte(crc)]
  }

  datatype EncodeError = PayloadTooLarge(size: nat) | UnknownType(kind: int)

  function KindByte(kind: int): (b: byte)
    requires kind in {1, 2}
    ensures b as int == kind
  {
    if kind == 1 then TYPE_SENSOR else TYPE_ACTUATOR
  }

  lemma Halves(w: bv16)
    ensures w as int == 256 * ((w >> 8) as int) + (w & 0xFF) as int
  {
  }

  lemma HalvesAsBytes(w: bv16)
    ensures LowByte(w) as int == (w & 0xFF) as int && HighByte(w) as int == (w >> 8) as int
  {
  }

  /** A 16-bit field is written low byte first. */
  lemma FieldInNumbers(lo: byte, hi: byte)
    ensures Field(lo, hi) as int == lo as int + 256 * (hi as int)
  {
    hide Field, LowByte, HighByte;
    var w := Field(lo, hi);
    FieldUnique(lo, hi);
    Halves(w);
    HalvesAsBytes(w);
  }

  /** Every byte of an encoded frame, by its position and in numbers. */
  ghost predicate LaidOut(w: seq<byte>, kind: int, payload: seq<byte>) {
    var n := |payload|;
    && |w| == n + 7
    && w[0] as int == 0x55 && w[1] as int == 0xAA && w[2] as int == kind
    && w[3] as int + 256 * (w[4] as int) == n
    && w[5..n + 5] == payload
    && w[n + 5] as int + 256 * (w[n + 6] as int) == Crc.Of(w[2..n + 5]) as int
  }

  lemma WireIsLaidOut(f: Frame)
    requires |f.payload| <= MAX_PAYLOAD
    ensures LaidOut(Wire(f), f.kind as int, f.payload)
  {
    hide LowByte, HighByte, LengthField, Field, Crc.Of;
    var n := |f.payload|;
    var w, body := Wire(f), Body(f);
    assert w[2..HEADER_SIZE + n] == body;
    assert w[HEADER_SIZE..HEADER_SIZE + n] == f.payload;
    LengthBytes(w[3], w[4], n);
    FieldInverse(Crc.Of(body));
    FieldInNumbers(w[3], w[4]);
    FieldInNumbers(w[HEADER_SIZE + n], w[HEADER_SIZE + n + 1]);
  }

  /** The plant's encoder: the type is any integer its caller passes. */
  function EncodeFrame(kind: int, payload: seq<byte>): (r: Result<seq<byte>, EncodeError>)
    ensures r.Ok? <==> |payload| <= 64 && kind in {1, 2}
    ensures r.Ok? ==> LaidOut(r.value, kind, payload)
    ensures |payload| > 64 ==> r == Err(PayloadTooLarge(|payload|))
    ensures |payload| <= 64 && kind !in {1, 2} ==> r == Err(UnknownType(kind))
  {
    if |payload| > MAX_PAYLOAD then Err(PayloadTooLarge(|payload|))
    else if kind !in {1, 2} then Err(UnknownType(kind))
    else
      var f := Frame(KindByte(kind), payload);
      WireIsLaidOut(f);
      Ok(Wire(f))
  }
}
