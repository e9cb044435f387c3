/**
 What the CRC detects, on bit strings and on byte strings that start from a zero register:
 every pattern of one, two or three wrong bits in up to 552 bits (a frame's type, length,
 64 payload bytes and CRC), and every burst of at most sixteen bits.
 */
module CrcDetection {
  import opened Crc
  import opened CrcAlgebra
  import opened CrcBits

  /** Type, length, the largest payload and the CRC itself. */
  const MAX_CODE_BITS := 552

  // ---- weight and parity ----

  function Weight(bits: seq<bool>): nat {
    if bits == [] then 0 else Weight(bits[..|bits| - 1]) + if bits[|bits| - 1] then 1 else 0
  }

  lemma {:induction false} WeightConcat(a: seq<bool>, b: seq<bool>)
    ensures Weight(a + b) == Weight(a) + Weight(b)
    decreases |b|
  {
    if b == [] {
      assert a + b == a;
    } else {
      var n := |b| - 1;
      assert (a + b)[..|a + b| - 1] == a + b[..n];
      WeightConcat(a, b[..n]);
    }
  }

  /** XOR of the sixteen bits of the register. */
  function Parity(r: bv16): bool {
    ((r & 0x8000 != 0) != ((r & 0x4000 != 0) != ((r & 0x2000 != 0) != ((r & 0x1000 != 0) !=
    ((r & 0x0800 != 0) != ((r & 0x0400 != 0) != ((r & 0x0200 != 0) != ((r & 0x0100 != 0) !=
    ((r & 0x0080 != 0) != ((r & 0x0040 != 0) != ((r & 0x0020 != 0) != ((r & 0x0010 != 0) !=
    ((r & 0x0008 != 0) != ((r & 0x0004 != 0) != ((r & 0x0002 != 0) != (r & 0x0001 != 0))))))))))))))))
  }

  lemma ParityOfShift(r: bv16)
    requires r & 0x8000 == 0
    ensures Parity(r << 1) == Parity(r)
  {
  }

  lemma ParityOfFeedback(r: bv16)
    requires r & 0x8000 != 0
    ensures Parity((r << 1) ^ 0x1021) == Parity(r)
  {
  }

  /** The polynomial has an even number of terms, so a zero step keeps parity. */
  lemma BitStepKeepsParity(r: bv16)
    ensures Parity(BitStep(r)) == Parity(r)
  {
    if r & 0x8000 != 0 {
      StepWithFeedback(r);
      ParityOfFeedback(r);
    } else {
      StepWithoutFeedback(r);
      ParityOfShift(r);
    }
  }

  lemma ParityOfTop(r: bv16)
    ensures Parity(r ^ 0x8000) == !Parity(r)
  {
  }

  lemma ParityOfFlip(r: bv16)
    ensures Parity(Plus(r, TOP)) == !Parity(r)
  {
    ParityOfTop(r);
  }

  lemma ParityOfBit(r: bv16, bit: bool)
    ensures Parity(BitIn(r, bit)) == (Parity(r) != bit)
  {
    ParityOfFlip(r);
    BitStepKeepsParity(if bit then Plus(r, TOP) else r);
  }

  lemma {:induction false} ParityOfRegister(r: bv16, bits: seq<bool>)
    ensures Parity(Shift(r, bits)) == (Parity(r) == (Weight(bits) % 2 == 0))
  {
    if bits != [] {
      var n := |bits| - 1;
      ParityOfRegister(r, bits[..n]);
      ParityOfBit(Shift(r, bits[..n]), bits[n]);
    }
  }

  // ---- the orbit of one bit ----

  function Step2(r: bv16): bv16 { BitStep(BitStep(r)) }
  function Step4(r: bv16): bv16 { Step2(Step2(r)) }
  function Step8(r: bv16): bv16 { Step4(Step4(r)) }
  function Step16(r: bv16): bv16 { Step8(Step8(r)) }
  function Step32(r: bv16): bv16 { Step16(Step16(r)) }
  function Step64(r: bv16): bv16 { Step32(Step32(r)) }

  /** None of the next 1, 2, 4, ... registers is the single top bit again. */
  predicate Away1(r: bv16) { BitStep(r) != 0x8000 }
  predicate Away2(r: bv16) { Away1(r) && Away1(BitStep(r)) }
  predicate Away4(r: bv16) { Away2(r) && Away2(Step2(r)) }
  predicate Away8(r: bv16) { Away4(r) && Away4(Step4(r)) }
  predicate Away16(r: bv16) { Away8(r) && Away8(Step8(r)) }
  predicate Away32(r: bv16) { Away16(r) && Away16(Step16(r)) }
  predicate Away64(r: bv16) { Away32(r) && Away32(Step32(r)) }

  /** The register does not come back to the single top bit within `n` zero steps. */
  ghost predicate NoReturn(r: bv16, n: nat) {
    forall d: nat :: 1 <= d <= n ==> Shifts(r, d) != TOP
  }

  lemma {:induction false} ShiftsAdd(r: bv16, m: nat, n: nat)
    ensures Shifts(r, m + n) == Shifts(Shifts(r, m), n)
  {
    if n > 0 {
      ShiftsAdd(r, m, n - 1);
    }
  }

  lemma NoReturnJoin(r: bv16, m: nat, n: nat)
    requires NoReturn(r, m) && NoReturn(Shifts(r, m), n)
    ensures NoReturn(r, m + n)
  {
    forall d: nat | 1 <= d <= m + n
      ensures Shifts(r, d) != TOP
    {
      if d > m {
        ShiftsAdd(r, m, d - m);
      }
    }
  }

  lemma Block1(r: bv16)
    ensures Shifts(r, 1) == BitStep(r)
    ensures Away1(r) ==> NoReturn(r, 1)
  {
    assert Shifts(r, 0) == r;
  }

  lemma Block2(r: bv16)
    ensures Shifts(r, 2) == Step2(r)
    ensures Away2(r) ==> NoReturn(r, 2)
  {
    Block1(r);
    Block1(BitStep(r));
    ShiftsAdd(r, 1, 1);
    if Away2(r) {
      NoReturnJoin(r, 1, 1);
    }
  }

  lemma Block4(r: bv16)
    ensures Shifts(r, 4) == Step4(r)
    ensures Away4(r) ==> NoReturn(r, 4)
  {
    Block2(r);
    Block2(Step2(r));
    ShiftsAdd(r, 2, 2);
    if Away4(r) {
      NoReturnJoin(r, 2, 2);
    }
  }

  lemma Block8(r: bv16)
    ensures Shifts(r, 8) == Step8(r)
    ensures Away8(r) ==> NoReturn(r, 8)
  {
    Block4(r);
    Block4(Step4(r));
    ShiftsAdd(r, 4, 4);
    if Away8(r) {
      NoReturnJoin(r, 4, 4);
    }
  }

  lemma Block16(r: bv16)
    ensures Shifts(r, 16) == Step16(r)
    ensures Away16(r) ==> NoReturn(r, 16)
  {
    Block8(r);
    Block8(Step8(r));
    ShiftsAdd(r, 8, 8);
    if Away16(r) {
      NoReturnJoin(r, 8, 8);
    }
  }

  lemma Block32(r: bv16)
    ensures Shifts(r, 32) == Step32(r)
    ensures Away32(r) ==> NoReturn(r, 32)
  {
    Block16(r);
    Block16(Step16(r));
    ShiftsAdd(r, 16, 16);
    if Away32(r) {
      NoReturnJoin(r, 16, 16);
    }
  }

  lemma Block64(r: bv16)
    ensures Shifts(r, 64) == Step64(r)
    ensures Away64(r) ==> NoReturn(r, 64)
  {
    Block32(r);
    Block32(Step32(r));
    ShiftsAdd(r, 32, 32);
    if Away64(r) {
      NoReturnJoin(r, 32, 32);
    }
  }

  /** Sixty-four zero steps lead from `r` to `last` and never through the single top bit. */
  ghost predicate Hop(r: bv16, last: bv16) {
    NoReturn(r, 64) && Shifts(r, 64) == last
  }

  lemma Evaluate0()
    ensures Step64(0x8000) == 0xFD81 && Away64(0x8000)
  {
  }

  lemma Hop0()
    ensures Hop(0x8000, 0xFD81)
  {
    Evaluate0();
    Block64(0x8000);
  }

  lemma Evaluate1()
    ensures Step64(0xFD81) == 0x0871 && Away64(0xFD81)
  {
  }

  lemma Hop1()
    ensures Hop(0xFD81, 0x0871)
  {
    Evaluate1();
    Block64(0xFD81);
  }

  lemma Evaluate2()
    ensures Step64(0x0871) == 0x22DA && Away64(0x0871)
  {
  }

  lemma Hop2()
    ensures Hop(0x0871, 0x22DA)
  {
    Evaluate2();
    Block64(0x0871);
  }

  lemma Evaluate3()
    ensures Step64(0x22DA) == 0x46EE && Away64(0x22DA)
  {
  }

  lemma Hop3()
    ensures Hop(0x22DA, 0x46EE)
  {
    Evaluate3();
    Block64(0x22DA);
  }

  lemma Evaluate4()
    ensures Step64(0x46EE) == 0x5C70 && Away64(0x46EE)
  {
  }

  lemma Hop4()
    ensures Hop(0x46EE, 0x5C70)
  {
    Evaluate4();
    Block64(0x46EE);
  }

  lemma Evaluate5()
    ensures Step64(0x5C70) == 0x5EB2 && Away64(0x5C70)
  {
  }

  lemma Hop5()
    ensures Hop(0x5C70, 0x5EB2)
  {
    Evaluate5();
    Block64(0x5C70);
  }

  lemma Evaluate6()
    ensures Step64(0x5EB2) == 0xC7E2 && Away64(0x5EB2)
  {
  }

  lemma Hop6()
    ensures Hop(0x5EB2, 0xC7E2)
  {
    Evaluate6();
    Block64(0x5EB2);
  }

  lemma Evaluate7()
    ensures Step64(0xC7E2) == 0xB449 && Away64(0xC7E2)
  {
  }

  lemma Hop7()
    ensures Hop(0xC7E2, 0xB449)
  {
    Evaluate7();
    Block64(0xC7E2);
  }

  lemma Evaluate8()
    ensures Step64(0xB449) == 0x4210 && Away64(0xB449)
  {
  }

  lemma Hop8()
    ensures Hop(0xB449, 0x4210)
  {
    Evaluate8();
    Block64(0xB449);
  }

  lemma Follow(n: nat, r: bv16, last: bv16)
    requires NoReturn(TOP, n) && Shifts(TOP, n) == r && Hop(r, last)
    ensures NoReturn(TOP, n + 64) && Shifts(TOP, n + 64) == last
  {
    ShiftsAdd(TOP, n, 64);
    NoReturnJoin(TOP, n, 64);
  }

  /** x^d is not 1 modulo the polynomial for any distance d inside a frame. */
  lemma OrbitOutlastsFrame()
    ensures NoReturn(TOP, MAX_CODE_BITS)
  {
    Hop0();
    Follow(0, 0x8000, 0xFD81);
    Hop1();
    Follow(64, 0xFD81, 0x0871);
    Hop2();
    Follow(128, 0x0871, 0x22DA);
    Hop3();
    Follow(192, 0x22DA, 0x46EE);
    Hop4();
    Follow(256, 0x46EE, 0x5C70);
    Hop5();
    Follow(320, 0x5C70, 0x5EB2);
    Hop6();
    Follow(384, 0x5EB2, 0xC7E2);
    Hop7();
    Follow(448, 0xC7E2, 0xB449);
    Hop8();
    Follow(512, 0xB449, 0x4210);
  }

  // ---- one, two or three wrong bits ----

  lemma {:induction false} NoBitNoChange(bits: seq<bool>)
    requires Weight(bits) == 0
    ensures Shift(0, bits) == 0
  {
    if bits != [] {
      NoBitNoChange(bits[..|bits| - 1]);
      BitStepKernel(0);
    }
  }

  /** Zero input keeps a nonzero register nonzero. */
  lemma {:induction false} ZerosPreserve(r: bv16, bits: seq<bool>)
    requires r != 0 && Weight(bits) == 0
    ensures Shift(r, bits) != 0
  {
    if bits != [] {
      ZerosPreserve(r, bits[..|bits| - 1]);
      BitStepKernel(Shift(r, bits[..|bits| - 1]));
    }
  }

  lemma FirstBit()
    ensures BitIn(0, true) == Shifts(TOP, 1)
  {
    PlusUnit(TOP);
    assert Shifts(TOP, 0) == TOP;
  }

  lemma {:induction false} OneBit(bits: seq<bool>) returns (k: nat)
    requires Weight(bits) == 1
    ensures 1 <= k <= |bits| && Shift(0, bits) == Shifts(TOP, k)
  {
    var init := bits[..|bits| - 1];
    if bits[|bits| - 1] {
      NoBitNoChange(init);
      FirstBit();
      k := 1;
    } else {
      k := OneBit(init);
      k := k + 1;
    }
  }

  lemma {:induction false} TwoBits(bits: seq<bool>)
    requires Weight(bits) == 2 && |bits| <= MAX_CODE_BITS
    ensures Shift(0, bits) != 0
  {
    var init := bits[..|bits| - 1];
    if bits[|bits| - 1] {
      var k := OneBit(init);
      OrbitOutlastsFrame();
      PlusIsZero(Shift(0, init), TOP);
      BitStepKernel(Plus(Shift(0, init), TOP));
    } else {
      TwoBits(init);
      BitStepKernel(Shift(0, init));
    }
  }

  lemma OddWeight(bits: seq<bool>)
    requires Weight(bits) % 2 == 1
    ensures Shift(0, bits) != 0
  {
    ParityOfRegister(0, bits);
  }

  lemma DetectsThreeBits(bits: seq<bool>)
    requires 1 <= Weight(bits) <= 3 && |bits| <= MAX_CODE_BITS
    ensures Shift(0, bits) != 0
  {
    if Weight(bits) == 2 {
      TwoBits(bits);
    } else {
      OddWeight(bits);
    }
  }

  // ---- bursts ----

  function Low(b: byte): bv16 {
    b as bv16
  }

  /** Two bytes as one register word, the first in the upper half. */
  function Word(hi: byte, lo: byte): bv16 {
    Plus(High(hi), Low(lo))
  }

  lemma LowTopClear(b: byte)
    ensures (b as bv16) & 0x8000 == 0
    ensures ((b as bv16) << 1) & 0x8000 == 0
    ensures ((b as bv16) << 2) & 0x8000 == 0
    ensures ((b as bv16) << 3) & 0x8000 == 0
    ensures ((b as bv16) << 4) & 0x8000 == 0
    ensures ((b as bv16) << 5) & 0x8000 == 0
    ensures ((b as bv16) << 6) & 0x8000 == 0
    ensures ((b as bv16) << 7) & 0x8000 == 0
  {
  }

  lemma ShiftsCompose(w: bv16)
    ensures (w << 1) << 1 == w << 2
    ensures (w << 2) << 1 == w << 3
    ensures (w << 3) << 1 == w << 4
    ensures (w << 4) << 1 == w << 5
    ensures (w << 5) << 1 == w << 6
    ensures (w << 6) << 1 == w << 7
    ensures (w << 7) << 1 == w << 8
  {
  }

  lemma ClimbOnce(w: bv16, n: nat, r: bv16)
    requires Shifts(w, n) == r && r & 0x8000 == 0
    ensures Shifts(w, n + 1) == r << 1
  {
    StepWithoutFeedback(r);
  }

  lemma NoShift(w: bv16)
    ensures Shifts(w, 0) == w
  {
  }

  /** Eight zero steps move the lower half into the upper half without feedback. */
  lemma LowClimbs(b: byte)
    ensures Shifts(Low(b), 8) == High(b)
  {
    var w := b as bv16;
    LowTopClear(b);
    ShiftsCompose(w);
    NoShift(w);
    ClimbOnce(w, 0, w);
    ClimbOnce(w, 1, w << 1);
    ClimbOnce(w, 2, w << 2);
    ClimbOnce(w, 3, w << 3);
    ClimbOnce(w, 4, w << 4);
    ClimbOnce(w, 5, w << 5);
    ClimbOnce(w, 6, w << 6);
    ClimbOnce(w, 7, w << 7);
  }

  lemma FromTwo(r: bv16, x: byte, y: byte)
    ensures From(r, [x, y]) == ByteStep(ByteStep(r, x), y)
  {
    assert [x, y][..1] == [x] && [x][..0] == [];
    assert From(r, [x]) == ByteStep(From(r, []), x);
  }

  lemma TwoBytes(r: bv16, x: byte, y: byte)
    ensures From(r, [x, y]) == Shifts(Plus(r, Word(x, y)), 16)
  {
    FromTwo(r, x, y);
    LowClimbs(y);
    ShiftsLinear(Plus(r, High(x)), Low(y), 8);
    PlusAssociates(r, High(x), Low(y));
    ShiftsAdd(Plus(r, Word(x, y)), 8, 8);
  }

  lemma {:induction false} ShiftsKernel(r: bv16, n: nat)
    ensures Shifts(r, n) == 0 <==> r == 0
  {
    if n > 0 {
      ShiftsKernel(r, n - 1);
      BitStepKernel(Shifts(r, n - 1));
    }
  }

  /** Two bytes bring the register to zero exactly when they equal it. */
  lemma TwoBytesCancel(r: bv16, x: byte, y: byte)
    ensures From(r, [x, y]) == 0 <==> r == Word(x, y)
  {
    TwoBytes(r, x, y);
    ShiftsKernel(Plus(r, Word(x, y)), 16);
    PlusIsZero(r, Word(x, y));
  }

  function BitsToByte(w: seq<bool>): byte
    requires |w| == 8
  {
    (if w[0] then 0x80 else 0) | (if w[1] then 0x40 else 0) |
    (if w[2] then 0x20 else 0) | (if w[3] then 0x10 else 0) |
    (if w[4] then 0x08 else 0) | (if w[5] then 0x04 else 0) |
    (if w[6] then 0x02 else 0) | (if w[7] then 0x01 else 0)
  }

  lemma TopBitsOf(w: seq<bool>)
    requires |w| == 8
    ensures TopBit(BitsToByte(w)) == w[0]
    ensures TopBit(BitsToByte(w) << 1) == w[1]
    ensures TopBit(BitsToByte(w) << 2) == w[2]
    ensures TopBit(BitsToByte(w) << 3) == w[3]
    ensures TopBit(BitsToByte(w) << 4) == w[4]
    ensures TopBit(BitsToByte(w) << 5) == w[5]
    ensures TopBit(BitsToByte(w) << 6) == w[6]
    ensures TopBit(BitsToByte(w) << 7) == w[7]
  {
  }

  lemma ByteShiftsCompose(b: byte)
    ensures (b << 1) << 1 == b << 2
    ensures (b << 2) << 1 == b << 3
    ensures (b << 3) << 1 == b << 4
    ensures (b << 4) << 1 == b << 5
    ensures (b << 5) << 1 == b << 6
    ensures (b << 6) << 1 == b << 7
  {
  }

  lemma NextBit(b: byte, w: seq<bool>, k: nat, shifted: byte)
    requires k < |w| && LeadingBits(b, k) == w[..k]
    requires UpBy(b, k) == shifted && TopBit(shifted) == w[k]
    ensures LeadingBits(b, k + 1) == w[..k + 1]
    ensures UpBy(b, k + 1) == shifted << 1
  {
  }

  lemma FirstHalfDetermined(b: byte, w: seq<bool>)
    requires |w| == 8
    requires TopBit(b) == w[0] && TopBit(b << 1) == w[1]
    requires TopBit(b << 2) == w[2] && TopBit(b << 3) == w[3]
    ensures LeadingBits(b, 4) == w[..4] && UpBy(b, 4) == b << 4
  {
    ByteShiftsCompose(b);
    NextBit(b, w, 0, b);
    NextBit(b, w, 1, b << 1);
    NextBit(b, w, 2, b << 2);
    NextBit(b, w, 3, b << 3);
  }

  lemma BitsDetermined(b: byte, w: seq<bool>)
    requires |w| == 8
    requires TopBit(b) == w[0] && TopBit(b << 1) == w[1]
    requires TopBit(b << 2) == w[2] && TopBit(b << 3) == w[3]
    requires TopBit(b << 4) == w[4] && TopBit(b << 5) == w[5]
    requires TopBit(b << 6) == w[6] && TopBit(b << 7) == w[7]
    ensures ByteBits(b) == w
  {
    FirstHalfDetermined(b, w);
    ByteShiftsCompose(b);
    NextBit(b, w, 4, b << 4);
    NextBit(b, w, 5, b << 5);
    NextBit(b, w, 6, b << 6);
    NextBit(b, w, 7, b << 7);
  }

  /** Every eight bits are the bits of some byte. */
  lemma BitsToByteInverse(w: seq<bool>)
    requires |w| == 8
    ensures ByteBits(BitsToByte(w)) == w
  {
    TopBitsOf(w);
    BitsDetermined(BitsToByte(w), w);
  }

  lemma {:induction false} ZeroByteBits(n: nat)
    ensures UpBy(0, n) == 0 && forall k :: 0 <= k < n ==> !LeadingBits(0, n)[k]
  {
    if n > 0 {
      ZeroByteBits(n - 1);
    }
  }

  lemma WordOfZero(x: byte, y: byte)
    ensures Word(x, y) == 0 ==> x == 0 && y == 0
  {
    assert ((x as bv16) << 8) ^ (y as bv16) == 0 ==> x == 0 && y == 0;
  }

  lemma {:induction false} WeightZero(bits: seq<bool>)
    ensures Weight(bits) == 0 <==> forall k :: 0 <= k < |bits| ==> !bits[k]
  {
    if bits != [] {
      var n := |bits| - 1;
      WeightZero(bits[..n]);
      assert forall k :: 0 <= k < n ==> bits[..n][k] == bits[k];
    }
  }

  lemma TwoByteBits(x: byte, y: byte)
    ensures Bits([x, y]) == ByteBits(x) + ByteBits(y)
  {
    assert [x, y][..1] == [x] && [x][..0] == [];
    assert Bits([x]) == Bits([]) + ByteBits(x);
  }

  lemma SilentWordIsZero(x: byte, y: byte)
    requires Shift(0, Bits([x, y])) == 0
    ensures x == 0 && y == 0
  {
    FromIsShift(0, [x, y]);
    TwoBytesCancel(0, x, y);
    WordOfZero(x, y);
  }

  /** Sixteen bits that are not all zero leave a trace in a zero register. */
  lemma SixteenBits(w: seq<bool>)
    requires |w| == 16 && Weight(w) > 0
    ensures Shift(0, w) != 0
  {
    var x, y := BitsToByte(w[..8]), BitsToByte(w[8..]);
    BitsToByteInverse(w[..8]);
    BitsToByteInverse(w[8..]);
    TwoByteBits(x, y);
    assert Bits([x, y]) == w;
    if Shift(0, w) == 0 {
      SilentWordIsZero(x, y);
      ZeroByteBits(8);
      WeightZero(w);
      assert false;
    }
  }

  /** All wrong bits lie within sixteen consecutive positions. */
  ghost predicate Burst(bits: seq<bool>) {
    exists i: nat :: BurstAt(bits, i)
  }

  ghost predicate BurstAt(bits: seq<bool>, i: nat) {
    forall k :: 0 <= k < |bits| && bits[k] ==> i <= k < i + 16
  }

  lemma DetectsBurst(bits: seq<bool>)
    requires |bits| >= 16 && Weight(bits) > 0 && Burst(bits)
    ensures Shift(0, bits) != 0
  {
    var at: nat :| BurstAt(bits, at);
    var i := if at + 16 <= |bits| then at else |bits| - 16;
    var pre, w, post := bits[..i], bits[i..i + 16], bits[i + 16..];
    WeightZero(pre);
    WeightZero(post);
    assert bits == pre + w + post;
    WeightConcat(pre, w);
    WeightConcat(pre + w, post);
    NoBitNoChange(pre);
    ShiftConcat(0, pre, w);
    SixteenBits(w);
    ShiftConcat(0, pre + w, post);
    ZerosPreserve(Shift(0, w), post);
  }

  // ---- the bounds are tight ----

  lemma PolynomialByte()
    ensures From(0, [1]) == 0x1021
  {
    assert [1][..0] == [];
    assert From(0, [1]) == ByteStep(From(0, []), 1);
    PlusUnit(High(1));
    assert High(1) == 0x100;
    NoShift(0x100);
    ClimbOnce(0x100, 0, 0x100);
    ClimbOnce(0x100, 1, 0x200);
    ClimbOnce(0x100, 2, 0x400);
    ClimbOnce(0x100, 3, 0x800);
    ClimbOnce(0x100, 4, 0x1000);
    ClimbOnce(0x100, 5, 0x2000);
    ClimbOnce(0x100, 6, 0x4000);
    StepWithFeedback(0x8000);
  }

  /**
   Four wrong bits within seventeen positions can go unseen: the pattern of the polynomial
   itself (bits 16, 12, 5 and 0).
   */
  lemma PolynomialGoesUnseen()
    ensures From(0, [0x01, 0x10, 0x21]) == 0
  {
    PolynomialByte();
    assert Word(0x10, 0x21) == 0x1021;
    TwoBytesCancel(0x1021, 0x10, 0x21);
    FromConcat(0, [1], [0x10, 0x21]);
    assert [1] + [0x10, 0x21] == [0x01, 0x10, 0x21];
  }
}
