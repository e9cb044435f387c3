/** Where the register starts, and the check value of the standard. */
module CrcStart {
  import opened Crc
  import opened CrcAlgebra
  import opened CrcDetection

  lemma Inverted(a: byte)
    ensures ByteXor(0xFF, a ^ 0xFF) == a
  {
  }

  lemma OnesStartAtZero()
    ensures From(INITIAL, [0xFF, 0xFF]) == 0
  {
    TwoBytesCancel(INITIAL, 0xFF, 0xFF);
  }

  /** Starting where the code does amounts to starting at zero with the first two bytes inverted. */
  lemma StartInvertsTwoBytes(a: byte, b: byte, rest: seq<byte>)
    ensures Of([a, b] + rest) == From(0, [a ^ 0xFF, b ^ 0xFF] + rest)
  {
    var ones, inverted := [0xFF, 0xFF], [a ^ 0xFF, b ^ 0xFF];
    Inverted(a);
    Inverted(b);
    assert Xor(ones, inverted) == [a, b];
    PlusUnit(INITIAL);
    FromLinear(INITIAL, 0, ones, inverted);
    OnesStartAtZero();
    PlusUnit(From(0, inverted));
    PlusCommutes(0, From(0, inverted));
    FromConcat(INITIAL, [a, b], rest);
    FromConcat(0, inverted, rest);
  }

  lemma CheckBytes()
    ensures ByteStep(0xFFFF, 0x31) == 0xC782 && ByteStep(0xC782, 0x32) == 0x3DBA
    ensures ByteStep(0x3DBA, 0x33) == 0x5BCE && ByteStep(0x5BCE, 0x34) == 0x5349
    ensures ByteStep(0x5349, 0x35) == 0x4560 && ByteStep(0x4560, 0x36) == 0x2EF4
    ensures ByteStep(0x2EF4, 0x37) == 0x7718 && ByteStep(0x7718, 0x38) == 0xA12B
    ensures ByteStep(0xA12B, 0x39) == 0x29B1
  {
  }

  lemma OneByteMore(data: seq<byte>, n: nat)
    requires n < |data|
    ensures Of(data[..n + 1]) == ByteStep(Of(data[..n]), data[n])
  {
    assert data[..n + 1][..n] == data[..n];
  }

  lemma NothingRead()
    ensures Of([]) == 0xFFFF
  {
  }

  /** The check value of CRC-16/CCITT-FALSE: the register after the nine digits. */
  lemma CheckValue()
    ensures Of([0x31, 0x32, 0x33, 0x34, 0x35, 0x36, 0x37, 0x38, 0x39]) == 0x29B1
  {
    hide Of, ByteStep, From;
    var digits: seq<byte> := [0x31, 0x32, 0x33, 0x34, 0x35, 0x36, 0x37, 0x38, 0x39];
    CheckBytes();
    NothingRead();
    assert digits[..0] == [];
    OneByteMore(digits, 0);
    OneByteMore(digits, 1);
    OneByteMore(digits, 2);
    OneByteMore(digits, 3);
    OneByteMore(digits, 4);
    OneByteMore(digits, 5);
    OneByteMore(digits, 6);
    OneByteMore(digits, 7);
    OneByteMore(digits, 8);
    assert digits[..9] == digits;
  }
}
