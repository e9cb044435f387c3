/**
 The algebra behind the error detection of the CRC: the register is linear over GF(2), and only
 the state zero is shifted to zero.
 */
module CrcAlgebra {
  import opened Crc

  // ---- one step ----

  lemma LinearParts(a: bv16, b: bv16)
    ensures (a ^ b) << 1 == (a << 1) ^ (b << 1)
    ensures (a ^ b) & 0x8000 == (a & 0x8000) ^ (b & 0x8000)
    ensures a & 0x8000 == 0 || a & 0x8000 == 0x8000
    ensures b & 0x8000 == 0 || b & 0x8000 == 0x8000
  {
  }

  lemma FeedbackCancels(a: bv16, b: bv16, p: bv16)
    ensures (a ^ p) ^ (b ^ p) == a ^ b
  {
  }

  lemma FeedbackMovesOut(a: bv16, b: bv16, p: bv16)
    ensures (a ^ p) ^ b == (a ^ b) ^ p
  {
  }

  lemma FeedbackMovesLeft(a: bv16, b: bv16, p: bv16)
    ensures a ^ (b ^ p) == (a ^ b) ^ p
  {
  }

  lemma BitStepLinear(a: bv16, b: bv16)
    ensures BitStep(Plus(a, b)) == Plus(BitStep(a), BitStep(b))
  {
    LinearParts(a, b);
    FeedbackCancels(a << 1, b << 1, 0x1021);
    FeedbackMovesOut(a << 1, b << 1, 0x1021);
    FeedbackMovesLeft(a << 1, b << 1, 0x1021);
  }

  lemma FeedbackIsOdd(r: bv16)
    ensures (r << 1) ^ 0x1021 != 0
  {
  }

  lemma OnlyTopBitLost(r: bv16)
    requires r & 0x8000 == 0 && r << 1 == 0
    ensures r == 0
  {
  }

  lemma BitStepKernel(r: bv16)
    ensures BitStep(r) == 0 <==> r == 0
  {
    if r & 0x8000 != 0 {
      StepWithFeedback(r);
      FeedbackIsOdd(r);
    } else {
      StepWithoutFeedback(r);
      if r << 1 == 0 {
        OnlyTopBitLost(r);
      }
    }
  }

  // ---- linearity of the whole register ----

  lemma PlusIsZero(a: bv16, b: bv16)
    ensures Plus(a, b) == 0 <==> a == b
  {
    assert a ^ b == 0 <==> a == b;
  }

  lemma PlusUnit(a: bv16)
    ensures Plus(a, 0) == a
    ensures Plus(0, a) == a
  {
  }

  lemma PlusCommutes(a: bv16, b: bv16)
    ensures Plus(a, b) == Plus(b, a)
  {
  }

  lemma PlusAssociates(a: bv16, b: bv16, c: bv16)
    ensures Plus(Plus(a, b), c) == Plus(a, Plus(b, c))
  {
  }

  lemma PlusSwap(a: bv16, b: bv16, c: bv16, d: bv16)
    ensures Plus(Plus(a, b), Plus(c, d)) == Plus(Plus(a, c), Plus(b, d))
  {
    PlusAssociates(a, b, Plus(c, d));
    PlusAssociates(b, c, d);
    PlusCommutes(b, c);
    PlusAssociates(c, b, d);
    PlusAssociates(a, c, Plus(b, d));
  }

  function ByteXor(x: byte, y: byte): byte {
    x ^ y
  }

  lemma HighLinear(x: byte, y: byte)
    ensures High(ByteXor(x, y)) == Plus(High(x), High(y))
  {
  }

  lemma {:induction false} ShiftsLinear(a: bv16, b: bv16, n: nat)
    ensures Shifts(Plus(a, b), n) == Plus(Shifts(a, n), Shifts(b, n))
  {
    if n > 0 {
      ShiftsLinear(a, b, n - 1);
      BitStepLinear(Shifts(a, n - 1), Shifts(b, n - 1));
    }
  }

  lemma ByteStepLinear(a: bv16, b: bv16, x: byte, y: byte)
    ensures ByteStep(Plus(a, b), ByteXor(x, y)) == Plus(ByteStep(a, x), ByteStep(b, y))
  {
    HighLinear(x, y);
    PlusSwap(a, b, High(x), High(y));
    ShiftsLinear(Plus(a, High(x)), Plus(b, High(y)), 8);
  }

  /** Byte-wise XOR of two strings of one length. */
  function Xor(a: seq<byte>, b: seq<byte>): (c: seq<byte>)
    requires |a| == |b|
    ensures |c| == |a|
    ensures forall i :: 0 <= i < |a| ==> c[i] == ByteXor(a[i], b[i])
  {
    seq(|a|, i requires 0 <= i < |a| => ByteXor(a[i], b[i]))
  }

  lemma {:induction false} FromLinear(r: bv16, s: bv16, a: seq<byte>, b: seq<byte>)
    requires |a| == |b|
    ensures From(Plus(r, s), Xor(a, b)) == Plus(From(r, a), From(s, b))
  {
    var n := |a| - 1;
    if a != [] {
      FromLinear(r, s, a[..n], b[..n]);
      ByteStepLinear(From(r, a[..n]), From(s, b[..n]), a[n], b[n]);
      assert Xor(a, b)[..n] == Xor(a[..n], b[..n]);
    }
  }
}
