/** Corrupted frames: what the CRC guarantees about a frame whose magic and length survived. */
module FrameCorruption {
  import opened Crc
  import opened CrcAlgebra
  import opened CrcBits
  import opened CrcDetection
  import opened Protocol
  import opened StreamParse
  import opened StreamTheorems

  /** An error pattern for the wire form of `f` that spares magic and length. */
  predicate SparesHeader(f: Frame, e: seq<byte>)
    requires |f.payload| <= MAX_PAYLOAD
  {
    |e| == |Wire(f)| && e[0] == 0 && e[1] == 0 && e[3] == 0 && e[4] == 0
  }

  /** The error in the order the register reads it: type, length, payload, CRC high, CRC low. */
  function CodeError(e: seq<byte>): seq<byte>
    requires |e| >= OVERHEAD
  {
    e[2..|e| - 2] + [e[|e| - 1], e[|e| - 2]]
  }

  lemma XorWithZero(x: byte)
    ensures ByteXor(x, 0) == x
  {
  }

  lemma XorSlice(a: seq<byte>, b: seq<byte>, i: nat, j: nat)
    requires |a| == |b| && i <= j <= |a|
    ensures Xor(a, b)[i..j] == Xor(a[i..j], b[i..j])
  {
  }

  lemma FieldIsWord(lo: byte, hi: byte)
    ensures Field(lo, hi) == Word(hi, lo)
  {
  }

  lemma LowLinear(x: byte, y: byte)
    ensures Low(ByteXor(x, y)) == Plus(Low(x), Low(y))
  {
  }

  lemma WordLinear(hi: byte, lo: byte, ehi: byte, elo: byte)
    ensures Word(ByteXor(hi, ehi), ByteXor(lo, elo)) == Plus(Word(hi, lo), Word(ehi, elo))
  {
    HighLinear(hi, ehi);
    LowLinear(lo, elo);
    PlusSwap(High(hi), High(ehi), Low(lo), Low(elo));
  }

  lemma PlusCancels(a: bv16, b: bv16, c: bv16)
    ensures Plus(a, b) == Plus(a, c) ==> b == c
  {
    assert a ^ b == a ^ c ==> b == c;
  }

  /** The receiver's comparison succeeds exactly when the register cannot see the error. */
  lemma ComparisonSeesError(body: seq<byte>, em: seq<byte>, lo: byte, hi: byte, elo: byte, ehi: byte)
    requires |body| == |em| && Field(lo, hi) == Of(body)
    ensures Field(ByteXor(lo, elo), ByteXor(hi, ehi)) == Of(Xor(body, em)) <==>
            From(0, em + [ehi, elo]) == 0
  {
    FieldIsWord(lo, hi);
    FieldIsWord(ByteXor(lo, elo), ByteXor(hi, ehi));
    WordLinear(hi, lo, ehi, elo);
    PlusUnit(INITIAL);
    FromLinear(INITIAL, 0, body, em);
    PlusCancels(Of(body), From(0, em), Word(ehi, elo));
    FromConcat(0, em, [ehi, elo]);
    TwoBytesCancel(From(0, em), ehi, elo);
  }

  /** The frame as received: the error added to the wire form, followed by later bytes. */
  function Received(f: Frame, e: seq<byte>, more: seq<byte>): seq<byte>
    requires |f.payload| <= MAX_PAYLOAD && SparesHeader(f, e)
  {
    Xor(Wire(f), e) + more
  }

  lemma ReceivedHeader(f: Frame, e: seq<byte>, more: seq<byte>)
    requires |f.payload| <= MAX_PAYLOAD && SparesHeader(f, e)
    ensures var b := Received(f, e, more);
            && MagicAt(b, 0)
            && b[2] == ByteXor(f.kind, e[2])
            && DeclaredLength(b) == |f.payload|
  {
    var w := Wire(f);
    WireLayout(f, []);
    assert w + [] == w;
    LengthBytes(w[3], w[4], |f.payload|);
    XorWithZero(w[0]);
    XorWithZero(w[1]);
    XorWithZero(w[3]);
    XorWithZero(w[4]);
  }

  lemma ReceivedCrc(f: Frame, e: seq<byte>, more: seq<byte>)
    requires |f.payload| <= MAX_PAYLOAD && SparesHeader(f, e)
    ensures CrcMatches(Received(f, e, more), |f.payload|) <==> From(0, CodeError(e)) == 0
  {
    var w, n, b := Wire(f), |f.payload|, Received(f, e, more);
    WireLayout(f, []);
    assert w + [] == w;
    var lo, hi := w[HEADER_SIZE + n], w[HEADER_SIZE + n + 1];
    FieldInverse(Of(Body(f)));
    XorSlice(w, e, 2, HEADER_SIZE + n);
    assert b[2..HEADER_SIZE + n] == Xor(Body(f), e[2..HEADER_SIZE + n]);
    ComparisonSeesError(Body(f), e[2..|e| - 2], lo, hi, e[|e| - 2], e[|e| - 1]);
  }

  /**
   What becomes of a frame with such an error, whatever follows it: a type error, a CRC error, or,
   if the register does not see the error, another frame that is taken for genuine.
   */
  lemma ErrorRejected(d: Receiver, f: Frame, e: seq<byte>, more: seq<byte>)
    requires |f.payload| <= MAX_PAYLOAD && SparesHeader(f, e)
    ensures var v := Judge(d, Received(f, e, more));
            if !AcceptsType(d, ByteXor(f.kind, e[2])) then v.BadType?
            else if From(0, CodeError(e)) != 0 then v.BadCrc?
            else v.Whole?
  {
    ReceivedHeader(f, e, more);
    ReceivedCrc(f, e, more);
  }

  /** Nothing is delivered at a position whose verdict is a reject: the scan moves two bytes. */
  ghost predicate Rejected(d: Receiver, b: seq<byte>) {
    && |b| >= 2
    && (OneStep(d, b) == Moved(Log([], 0, 1, 0, 0, b[2..])) ||
        OneStep(d, b) == Moved(Log([], 0, 0, 1, 0, b[2..])))
  }

  lemma SeenErrorIsRejected(d: Receiver, f: Frame, e: seq<byte>, more: seq<byte>)
    requires |f.payload| <= MAX_PAYLOAD && SparesHeader(f, e)
    requires From(0, CodeError(e)) != 0
    ensures Rejected(d, Received(f, e, more))
  {
    hide Judge;
    var b := Received(f, e, more);
    ErrorRejected(d, f, e, more);
    ReceivedHeader(f, e, more);
    FirstMagic(b, 0);
    assert b[0..] == b;
    StepWithMagic(d, b, 0);
  }

  // ---- the guarantees ----

  lemma TwoByteWeight(x: byte, y: byte)
    ensures Weight(Bits([x, y])) == Weight(ByteBits(x)) + Weight(ByteBits(y))
  {
    TwoByteBits(x, y);
    WeightConcat(ByteBits(x), ByteBits(y));
  }

  lemma ZeroBytesWeigh()
    ensures Weight(Bits([0, 0])) == 0
  {
    TwoByteWeight(0, 0);
    ZeroByteBits(8);
    WeightZero(ByteBits(0));
  }

  lemma BytesWeigh(a: seq<byte>, b: seq<byte>)
    ensures Weight(Bits(a + b)) == Weight(Bits(a)) + Weight(Bits(b))
  {
    hide Weight, Bits;
    BitsConcat(a, b);
    WeightConcat(Bits(a), Bits(b));
  }

  lemma SwapWeight(mid: seq<byte>, x: byte, y: byte)
    ensures Weight(Bits(mid + [x, y])) == Weight(Bits(mid + [y, x]))
  {
    hide Weight, Bits;
    BytesWeigh(mid, [x, y]);
    BytesWeigh(mid, [y, x]);
    TwoByteWeight(x, y);
    TwoByteWeight(y, x);
  }

  lemma Unzip(e: seq<byte>)
    requires |e| >= OVERHEAD && e[0] == 0 && e[1] == 0
    ensures e == [0, 0] + (e[2..|e| - 2] + [e[|e| - 2], e[|e| - 1]])
  {
  }

  lemma CodeErrorWeight(e: seq<byte>)
    requires |e| >= OVERHEAD && e[0] == 0 && e[1] == 0
    ensures Weight(Bits(CodeError(e))) == Weight(Bits(e))
  {
    hide Weight, Bits;
    var mid, x, y := e[2..|e| - 2], e[|e| - 2], e[|e| - 1];
    Unzip(e);
    BytesWeigh([0, 0], mid + [x, y]);
    ZeroBytesWeigh();
    SwapWeight(mid, x, y);
  }

  /** One, two or three flipped bits anywhere in type, payload and CRC are always rejected. */
  lemma ThreeFlipsRejected(d: Receiver, f: Frame, e: seq<byte>, more: seq<byte>)
    requires |f.payload| <= MAX_PAYLOAD && SparesHeader(f, e)
    requires 1 <= Weight(Bits(e)) <= 3
    ensures Rejected(d, Received(f, e, more))
  {
    CodeErrorWeight(e);
    FromIsShift(0, CodeError(e));
    DetectsThreeBits(Bits(CodeError(e)));
    SeenErrorIsRejected(d, f, e, more);
  }

  /** Dropping sixteen clear bits in front keeps a burst a burst. */
  lemma BurstAfterGap(gap: seq<bool>, bits: seq<bool>)
    requires |gap| == 16 && Burst(gap + bits)
    ensures Burst(bits)
  {
    var i: nat :| BurstAt(gap + bits, i);
    var j := if i < 16 then 0 else i - 16;
    forall k | 0 <= k < |bits| && bits[k]
      ensures j <= k < j + 16
    {
      assert (gap + bits)[16 + k];
    }
    assert BurstAt(bits, j);
  }

  lemma CodeErrorBurst(e: seq<byte>)
    requires |e| >= OVERHEAD && e[0] == 0 && e[1] == 0 && e[|e| - 1] == 0 && e[|e| - 2] == 0
    requires Burst(Bits(e))
    ensures Burst(Bits(CodeError(e)))
  {
    hide Bits, Burst;
    assert e == [0, 0] + CodeError(e);
    BitsConcat([0, 0], CodeError(e));
    BurstAfterGap(Bits([0, 0]), Bits(CodeError(e)));
  }

  /** Any nonzero error within sixteen consecutive bits of type or payload is rejected. */
  lemma BurstRejected(d: Receiver, f: Frame, e: seq<byte>, more: seq<byte>)
    requires |f.payload| <= MAX_PAYLOAD && SparesHeader(f, e)
    requires e[|e| - 1] == 0 && e[|e| - 2] == 0
    requires Weight(Bits(e)) > 0 && Burst(Bits(e))
    ensures Rejected(d, Received(f, e, more))
  {
    CodeErrorWeight(e);
    CodeErrorBurst(e);
    FromIsShift(0, CodeError(e));
    DetectsBurst(Bits(CodeError(e)));
    SeenErrorIsRejected(d, f, e, more);
  }

  // ---- and its limit ----

  function Zeros(n: nat): seq<byte> {
    seq(n, _ => 0)
  }

  lemma {:induction false} ZerosKeepZero(n: nat)
    ensures From(0, Zeros(n)) == 0
  {
    if n > 0 {
      ZerosKeepZero(n - 1);
      assert Zeros(n)[..n - 1] == Zeros(n - 1);
      ByteStepIsShift(0, 0);
      ZeroByteBits(8);
      WeightZero(ByteBits(0));
      NoBitNoChange(ByteBits(0));
    }
  }

  /** The polynomial's four bits at the start of the payload. */
  function PolynomialError(n: nat): (e: seq<byte>)
    requires n >= 3
    ensures |e| == OVERHEAD + n
  {
    Zeros(HEADER_SIZE) + [0x01, 0x10, 0x21] + Zeros(n - 3 + CRC_SIZE)
  }

  lemma PolynomialCodeError(n: nat)
    requires n >= 3
    ensures From(0, CodeError(PolynomialError(n))) == 0
  {
    var e := PolynomialError(n);
    assert CodeError(e) == Zeros(3) + ([0x01, 0x10, 0x21] + Zeros(n - 3 + CRC_SIZE));
    ZerosKeepZero(3);
    ZerosKeepZero(n - 3 + CRC_SIZE);
    PolynomialGoesUnseen();
    FromConcat(0, Zeros(3), [0x01, 0x10, 0x21] + Zeros(n - 3 + CRC_SIZE));
    FromConcat(0, [0x01, 0x10, 0x21], Zeros(n - 3 + CRC_SIZE));
  }

  /** Three is the most: four flipped bits can turn a frame into another one that is taken. */
  lemma FourFlipsCanPass(d: Receiver, f: Frame, more: seq<byte>)
    requires 3 <= |f.payload| <= MAX_PAYLOAD && AcceptsType(d, f.kind)
    ensures var e := PolynomialError(|f.payload|);
            SparesHeader(f, e) && Judge(d, Received(f, e, more)).Whole?
  {
    var e := PolynomialError(|f.payload|);
    PolynomialCodeError(|f.payload|);
    XorWithZero(f.kind);
    ErrorRejected(d, f, e, more);
  }
}
