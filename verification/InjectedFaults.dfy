/** Injected faults end to end: what the receivers and the ECU make of them. */
module InjectedFaults {
  import opened CrcAlgebra
  import opened CrcBits
  import opened CrcDetection
  import opened Wrappers
  import opened UInt32
  import opened Protocol
  import opened StreamParse
  import opened FrameCorruption
  import FaultInjector
  import FaultChain
  import opened Sensors
  import Ecu
  import EcuRuns

  // ---- a corrupted byte ----

  function FlipAt(n: nat, i: nat): (e: seq<byte>)
    requires i < n
    ensures |e| == n && forall k :: 0 <= k < n ==> e[k] == if k == i then 0xFF else 0
  {
    Zeros(i) + [0xFF] + Zeros(n - i - 1)
  }

  lemma {:induction false} ZerosWeigh(n: nat)
    ensures Weight(Bits(Zeros(n))) == 0
  {
    if n > 0 {
      assert Zeros(n)[..n - 1] == Zeros(n - 1);
      ZerosWeigh(n - 1);
      ZeroByteBits(8);
      WeightZero(ByteBits(0));
      WeightConcat(Bits(Zeros(n - 1)), ByteBits(0));
    }
  }

  lemma ByteOfOnes()
    ensures ByteBits(0xFF)[0]
  {
    assert LeadingBits(0xFF, 1)[0] == TopBit(UpBy(0xFF, 0));
    LeadingFirst(0xFF, 8);
  }

  lemma {:induction false} LeadingFirst(b: byte, n: nat)
    requires n >= 1
    ensures LeadingBits(b, n)[0] == TopBit(b)
  {
    if n > 1 {
      LeadingFirst(b, n - 1);
    } else {
      assert UpBy(b, 0) == b;
    }
  }

  /** A byte that is inverted is a burst of eight bits. */
  lemma FlipIsBurst(n: nat, i: nat)
    requires i < n
    ensures Weight(Bits(FlipAt(n, i))) > 0 && Burst(Bits(FlipAt(n, i)))
  {
    hide Weight, ByteBits;
    var e := FlipAt(n, i);
    var pre, post := Zeros(i), Zeros(n - i - 1);
    BitsConcat(pre, [0xFF]);
    BitsConcat(pre + [0xFF], post);
    assert Bits([0xFF]) == ByteBits(0xFF) by {
      assert [0xFF as byte][..0] == [];
      assert Bits([0xFF]) == Bits([]) + ByteBits(0xFF);
    }
    ZerosWeigh(i);
    ZerosWeigh(n - i - 1);
    WeightZero(Bits(pre));
    WeightZero(Bits(post));
    var bits := Bits(e);
    assert bits == Bits(pre) + ByteBits(0xFF) + Bits(post);
    forall k | 0 <= k < |bits| && bits[k] ensures 8 * i <= k < 8 * i + 16 {
    }
    assert BurstAt(bits, 8 * i);
    ByteOfOnes();
    assert bits[8 * i];
    WeightZero(bits);
  }

  lemma FlipIsXor(w: seq<byte>, i: nat)
    requires i < |w|
    ensures w[i := w[i] ^ 0xFF] == Xor(w, FlipAt(|w|, i))
  {
    forall k | 0 <= k < |w| ensures w[i := w[i] ^ 0xFF][k] == Xor(w, FlipAt(|w|, i))[k] {
      XorWithZero(w[k]);
    }
  }

  /**
   Whenever the injector inverts a byte of the type or the payload of a frame, both receivers
   reject the frame where it stands.
   */
  lemma InjectedFlipIsRejected(d: Receiver, f: Frame, count: nat, everyN: int, offset: int, more: seq<byte>)
    requires |f.payload| <= MAX_PAYLOAD && everyN != 0 && count % everyN == 0
    requires offset == 2 || HEADER_SIZE <= offset < HEADER_SIZE + |f.payload|
    ensures var r := FaultInjector.Mutated(Wire(f), count, everyN, offset);
            r.Ok? && |r.value| == |Wire(f)| && Rejected(d, r.value + more)
  {
    hide Wire, Bits, Weight, Burst, Rejected;
    var w := Wire(f);
    var e := FlipAt(|w|, offset);
    FlipIsXor(w, offset);
    FlipIsBurst(|w|, offset);
    BurstRejected(d, f, e, more);
  }

  // ---- a frozen sensor ----

  /** Plausible driving: moving at more than 1 m/s, wheel speed in the sensor's range. */
  ghost predicate Driving(fs: seq<FaultInjector.Timed>) {
    forall f <- fs :: 1.0 < f.frame.v <= 120.0 && -1.0 <= f.frame.omega <= 500.0
  }

  /**
   With the sensor fault active and one frame per cycle, the code is raised from the eleventh
   frozen frame on and the ECU is latched from the twentieth, whatever it did before.
   */
  lemma StuckSensorEndToEnd(w: FaultInjector.Window, fs: seq<FaultInjector.Timed>,
                            before: seq<Ecu.Tick>, frozen: seq<Ecu.Tick>, k: nat)
    requires forall f <- fs :: FaultInjector.Active(w, f.t)
    requires Driving(fs) && k < |fs| == |frozen| && |before| + |frozen| < U32
    requires forall j :: 0 <= j < |fs| ==>
               frozen[j] == FaultChain.TickOf(Some(FaultInjector.ShownAt(w, None, fs, j)),
                                              frozen[j].crcTotal, frozen[j].request)
    ensures var o := Ecu.OutputAt(Ecu.INITIAL, before + frozen, |before| + k);
            && (k >= 10 ==> SensorStuck in o.dtc)
            && (k >= 19 ==> o.status == FAULT_LATCHED && o.command == frozen[k].request)
  {
    var omega := fs[0].frame.omega;
    assert fs[0] in fs;
    forall j | 0 <= j < |frozen|
      ensures frozen[j].read.Some? && frozen[j].read.value.omega == omega &&
              1.0 < frozen[j].read.value.v <= 120.0 && frozen[j].read.value.finite
    {
      FaultInjector.FrozenWhileActive(w, fs, j);
      assert fs[j] in fs;
    }
    assert EcuRuns.FrozenTicks(frozen, omega);
    EcuRuns.FrozenSensorLatches(before, frozen, omega, k);
  }
}
