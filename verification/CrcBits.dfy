/**
 Byte strings as bit strings, most significant bit of each byte first, and the register that
 consumes them bit by bit.
 */
module CrcBits {
  import opened Crc
  import opened CrcAlgebra

  // ---- bytes as bits, most significant first ----

  function TopBit(b: byte): bool {
    b & 0x80 != 0
  }

  function Up(b: byte): byte {
    b << 1
  }

  function UpBy(b: byte, n: nat): byte {
    if n == 0 then b else Up(UpBy(b, n - 1))
  }

  /** The `n` most significant bits of `b`. */
  function LeadingBits(b: byte, n: nat): (bits: seq<bool>)
    ensures |bits| == n
  {
    if n == 0 then [] else LeadingBits(b, n - 1) + [TopBit(UpBy(b, n - 1))]
  }

  function ByteBits(b: byte): (bits: seq<bool>)
    ensures |bits| == 8
  {
    LeadingBits(b, 8)
  }

  function Bits(data: seq<byte>): (bits: seq<bool>)
    ensures |bits| == 8 * |data|
  {
    if data == [] then [] else Bits(data[..|data| - 1]) + ByteBits(data[|data| - 1])
  }

  lemma {:induction false} BitsConcat(a: seq<byte>, b: seq<byte>)
    ensures Bits(a + b) == Bits(a) + Bits(b)
    decreases |b|
  {
    if b == [] {
      assert a + b == a;
    } else {
      var n := |b| - 1;
      assert (a + b)[..|a + b| - 1] == a + b[..n];
      BitsConcat(a, b[..n]);
      assert Bits(a + b) == (Bits(a) + Bits(b[..n])) + ByteBits(b[n]);
    }
  }

  // ---- the register fed with single bits ----

  const TOP: bv16 := 0x8000

  function BitIn(r: bv16, bit: bool): bv16 {
    BitStep(if bit then Plus(r, TOP) else r)
  }

  function Shift(r: bv16, bits: seq<bool>): bv16 {
    if bits == [] then r else BitIn(Shift(r, bits[..|bits| - 1]), bits[|bits| - 1])
  }

  lemma {:induction false} ShiftConcat(r: bv16, a: seq<bool>, b: seq<bool>)
    ensures Shift(r, a + b) == Shift(Shift(r, a), b)
    decreases |b|
  {
    if b == [] {
      assert a + b == a;
    } else {
      var n := |b| - 1;
      assert (a + b)[..|a + b| - 1] == a + b[..n];
      ShiftConcat(r, a, b[..n]);
    }
  }

  lemma StepOfHigh(b: byte)
    ensures BitStep(High(b)) == if TopBit(b) then Plus(BitStep(TOP), High(Up(b))) else High(Up(b))
  {
    var h: bv16 := (b as bv16) << 8;
    assert h & 0x8000 == 0 <==> b & 0x80 == 0;
    if TopBit(b) {
      StepWithFeedback(h);
      assert (h << 1) ^ 0x1021 == 0x1021 ^ (((b << 1) as bv16) << 8);
    } else {
      StepWithoutFeedback(h);
    }
  }

  /** Shifting a byte out of the upper half feeds its top bit to the register. */
  lemma PeelBit(r: bv16, b: byte)
    ensures BitStep(Plus(r, High(b))) == Plus(BitIn(r, TopBit(b)), High(Up(b)))
  {
    StepOfHigh(b);
    BitStepLinear(r, High(b));
    BitStepLinear(r, TOP);
    PlusAssociates(BitStep(r), BitStep(TOP), High(Up(b)));
  }

  lemma {:induction false} PeelBits(r: bv16, b: byte, n: nat)
    ensures Shifts(Plus(r, High(b)), n) == Plus(Shift(r, LeadingBits(b, n)), High(UpBy(b, n)))
  {
    if n > 0 {
      PeelBits(r, b, n - 1);
      PeelBit(Shift(r, LeadingBits(b, n - 1)), UpBy(b, n - 1));
      assert LeadingBits(b, n)[..n - 1] == LeadingBits(b, n - 1);
    }
  }

  lemma UpTwice(b: byte, n: nat)
    ensures UpBy(b, n + 2) == UpBy(b, n) << 2
  {
    assert UpBy(b, n + 2) == Up(Up(UpBy(b, n)));
  }

  lemma NothingLeft(b: byte)
    ensures UpBy(b, 8) == 0
  {
    UpTwice(b, 0);
    UpTwice(b, 2);
    UpTwice(b, 4);
    UpTwice(b, 6);
  }

  lemma {:induction false} ByteStepIsShift(r: bv16, b: byte)
    ensures ByteStep(r, b) == Shift(r, ByteBits(b))
  {
    PeelBits(r, b, 8);
    NothingLeft(b);
    PlusUnit(Shift(r, ByteBits(b)));
  }

  /** The byte-wise register is the bit-serial one. */
  lemma {:induction false} FromIsShift(r: bv16, data: seq<byte>)
    ensures From(r, data) == Shift(r, Bits(data))
  {
    if data != [] {
      var n := |data| - 1;
      FromIsShift(r, data[..n]);
      ByteStepIsShift(From(r, data[..n]), data[n]);
      ShiftConcat(r, Bits(data[..n]), ByteBits(data[n]));
    }
  }
}
