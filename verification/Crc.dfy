/**
 CRC-16/CCITT-FALSE: polynomial 0x1021, initial value 0xFFFF, no reflection, no final XOR.

 The register is a 16-bit vector. `Crc` is the specification; the two loops, the one of the
 plant (an unbounded integer masked to 16 bits) and the one of the controller (a `uint16_t`),
 are proved to compute it.
 */
module Crc {

  type byte = bv8

  const INITIAL: bv16 := 0xFFFF

  /** Addition over GF(2). */
  function Plus(a: bv16, b: bv16): bv16 {
    a ^ b
  }

  /** One shift of the register with a zero input bit. */
  function BitStep(r: bv16): bv16 {
    if r & 0x8000 != 0 then (r << 1) ^ 0x1021 else r << 1
  }

  /** `n` shifts with zero input. */
  function Shifts(r: bv16, n: nat): bv16 {
    if n == 0 then r else BitStep(Shifts(r, n - 1))
  }

  /** The byte moved to the upper half of the register. */
  function High(b: byte): bv16 {
    (b as bv16) << 8
  }

  function ByteStep(r: bv16, b: byte): bv16 {
    Shifts(Plus(r, High(b)), 8)
  }

  /** The register after a whole byte string, started at `r`. */
  function From(r: bv16, data: seq<byte>): bv16 {
    if data == [] then r else ByteStep(From(r, data[..|data| - 1]), data[|data| - 1])
  }

  function Of(data: seq<byte>): bv16 {
    From(INITIAL, data)
  }

  lemma {:induction false} FromConcat(r: bv16, a: seq<byte>, b: seq<byte>)
    ensures From(r, a + b) == From(From(r, a), b)
    decreases |b|
  {
    if b == [] {
      assert a + b == a;
    } else {
      var n := |b| - 1;
      assert (a + b)[..|a + b| - 1] == a + b[..n];
      FromConcat(r, a, b[..n]);
    }
  }

  /** The controller's conditional shift of its `uint16_t` register. */
  method ShiftController(r: bv16) returns (crc: bv16)
    ensures crc == BitStep(r)
  {
    crc := r;
    if crc & 0x8000 != 0 {
      crc := (crc << 1) ^ 0x1021;
    } else {
      crc := crc << 1;
    }
  }

  /** The inner bit loop of the controller. */
  method MixController(r: bv16, b: byte) returns (crc: bv16)
    ensures crc == ByteStep(r, b)
  {
    crc := r ^ ((b as bv16) << 8);
    ghost var mixed := crc;
    for bit := 0 to 8
      invariant crc == Shifts(mixed, bit)
    {
      crc := ShiftController(crc);
    }
  }

  method Crc16Controller(data: seq<byte>) returns (crc: bv16)
    ensures crc == Of(data)
  {
    crc := 0xFFFF;
    for i := 0 to |data|
      invariant crc == Of(data[..i])
    {
      crc := MixController(crc, data[i]);
      assert data[..i + 1][..i] == data[..i];
    }
    assert data[..|data|] == data;
  }

  lemma StepWithoutFeedback(r: bv16)
    requires r & 0x8000 == 0
    ensures BitStep(r) == r << 1
  {
  }

  lemma StepWithFeedback(r: bv16)
    requires r & 0x8000 != 0
    ensures BitStep(r) == (r << 1) ^ 0x1021
  {
  }

  /** The 16-bit register as the plant's wider integer. */
  function Wide(r: bv16): bv32 {
    r as bv32
  }

  /** The plant's shift: an integer wider than 16 bits until the mask is applied. */
  function MaskedStep(w: bv32): bv32 {
    if w & 0x8000 != 0 then ((w << 1) ^ 0x1021) & 0xFFFF else (w << 1) & 0xFFFF
  }

  lemma WideTopBit(r: bv16)
    ensures r & 0x8000 != 0 ==> (r as bv32) & 0x8000 != 0
    ensures r & 0x8000 == 0 ==> (r as bv32) & 0x8000 == 0
  {
  }

  lemma WideShift(r: bv16)
    ensures ((r as bv32) << 1) & 0xFFFF == (r << 1) as bv32
    ensures (((r as bv32) << 1) ^ 0x1021) & 0xFFFF == ((r << 1) ^ 0x1021) as bv32
  {
  }

  /** Masking after the shift loses nothing: the integer register always is the 16-bit one. */
  lemma MaskedStepIsBitStep(r: bv16)
    ensures MaskedStep(Wide(r)) == Wide(BitStep(r))
  {
    WideTopBit(r);
    WideShift(r);
    if r & 0x8000 != 0 {
      StepWithFeedback(r);
    } else {
      StepWithoutFeedback(r);
    }
  }

  lemma WideMix(r: bv16, b: byte)
    ensures Wide(r) ^ ((b as bv32) << 8) == Wide(Plus(r, High(b)))
  {
  }

  method ShiftPlant(w: bv32) returns (crc: bv32)
    ensures crc == MaskedStep(w)
  {
    crc := w;
    if crc & 0x8000 != 0 {
      crc := ((crc << 1) ^ 0x1021) & 0xFFFF;
    } else {
      crc := (crc << 1) & 0xFFFF;
    }
  }

  /** The inner bit loop of the plant. */
  method MixPlant(w: bv32, b: byte, ghost r: bv16) returns (crc: bv32)
    requires w == Wide(r)
    ensures crc == Wide(ByteStep(r, b))
  {
    WideMix(r, b);
    ghost var mixed := Plus(r, High(b));
    crc := w ^ ((b as bv32) << 8);
    for bit := 0 to 8
      invariant crc == Wide(Shifts(mixed, bit))
    {
      MaskedStepIsBitStep(Shifts(mixed, bit));
      crc := ShiftPlant(crc);
    }
  }

  method Crc16Plant(data: seq<byte>) returns (crc: bv32)
    ensures crc == Wide(Of(data))
  {
    crc := 0xFFFF;
    for i := 0 to |data|
      invariant crc == Wide(Of(data[..i]))
    {
      crc := MixPlant(crc, data[i], Of(data[..i]));
      assert data[..i + 1][..i] == data[..i];
    }
    assert data[..|data|] == data;
  }
}
