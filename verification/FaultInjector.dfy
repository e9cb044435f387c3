/** Faults that the plant injects between its state and the wire. */
module FaultInjector {
  import opened Wrappers
  import opened Protocol

  /** Active from `start` to `end`, both included; no end means forever. */
  datatype Window = Window(start: real, end: Option<real>)

  predicate Active(w: Window, t: real) {
    w.start <= t && (w.end.Some? ==> t <= w.end.value)
  }

  // ---- a frozen wheel sensor ----

  datatype Flag = InjectedStuck | InjectedNoise | InjectedRange | InjectedIce

  datatype SensorFrame = SensorFrame(timestamp: int, v: real, omega: real, brake: real, flags: set<Flag>)

  datatype Timed = Timed(frame: SensorFrame, t: real)

  class StuckSensorFault {
    const window: Window
    var frozen: Option<real>

    constructor (window: Window)
      ensures this.window == window && frozen == None
    {
      this.window := window;
      frozen := None;
    }

    method Apply(frame: SensorFrame, t: real) returns (out: SensorFrame)
      modifies this
      ensures frozen == Hold(window, old(frozen), Timed(frame, t))
      ensures out == Shown(window, old(frozen), Timed(frame, t))
    {
      var active := Active(window, t);
      if !active {
        frozen := None;
        return frame;
      }
      if frozen == None {
        frozen := Some(frame.omega);
      }
      out := frame.(omega := frozen.value, flags := frame.flags + {InjectedStuck});
    }
  }

  /** The wheel speed the fault holds on to after one frame. */
  function Hold(w: Window, frozen: Option<real>, f: Timed): Option<real> {
    if !Active(w, f.t) then None else if frozen.None? then Some(f.frame.omega) else frozen
  }

  /** The frame the ECU is shown. */
  function Shown(w: Window, frozen: Option<real>, f: Timed): SensorFrame {
    var h := Hold(w, frozen, f);
    if h.None? then f.frame else f.frame.(omega := h.value, flags := f.frame.flags + {InjectedStuck})
  }

  function HoldAll(w: Window, frozen: Option<real>, fs: seq<Timed>): Option<real> {
    if fs == [] then frozen else Hold(w, HoldAll(w, frozen, fs[..|fs| - 1]), fs[|fs| - 1])
  }

  function ShownAt(w: Window, frozen: Option<real>, fs: seq<Timed>, k: nat): SensorFrame
    requires k < |fs|
  {
    Shown(w, HoldAll(w, frozen, fs[..k]), fs[k])
  }

  /** While the fault is active every frame shows the wheel speed of the first; the rest is true. */
  lemma {:induction false} FrozenWhileActive(w: Window, fs: seq<Timed>, k: nat)
    requires k < |fs| && forall f <- fs :: Active(w, f.t)
    ensures var out := ShownAt(w, None, fs, k);
            && out.omega == fs[0].frame.omega && out.v == fs[k].frame.v
            && out.brake == fs[k].frame.brake && out.timestamp == fs[k].frame.timestamp
    ensures HoldAll(w, None, fs[..k + 1]) == Some(fs[0].frame.omega)
  {
    assert fs[..k + 1][..k] == fs[..k];
    assert fs[k] in fs;
    if k > 0 {
      FrozenWhileActive(w, fs, k - 1);
      assert fs[..k] == fs[..(k - 1) + 1];
    }
  }

  // ---- corrupted bytes on the wire ----

  datatype MutateError = ZeroDivision | IndexOutOfRange

  /** Where an index of the sending side's language points in a string of `n` bytes. */
  function Resolve(offset: int, n: nat): Option<nat> {
    if 0 <= offset < n then Some(offset)
    else if offset < 0 <= n + offset then Some(n + offset)
    else None
  }

  class CrcCorruptionFault {
    const window: Window
    const everyN: int
    const offset: int
    var counter: nat

    constructor (window: Window, everyN: int := 100, offset: int := 7)
      ensures this.window == window && this.everyN == everyN && this.offset == offset && counter == 0
    {
      this.window, this.everyN, this.offset := window, everyN, offset;
      counter := 0;
    }

    method MutateWire(wire: seq<byte>, t: real) returns (r: Result<seq<byte>, MutateError>)
      modifies this
      ensures counter == old(counter) + if Active(window, t) then 1 else 0
      ensures r == if Active(window, t) then Mutated(wire, counter, everyN, offset) else Ok(wire)
    {
      if !Active(window, t) {
        return Ok(wire);
      }
      counter := counter + 1;
      if everyN == 0 {
        return Err(ZeroDivision);
      }
      if counter % everyN != 0 {
        return Ok(wire);
      }
      if offset >= |wire| - 2 {
        return Ok(wire);
      }
      var at := Resolve(offset, |wire|);
      if at == None {
        return Err(IndexOutOfRange);
      }
      r := Ok(wire[at.value := wire[at.value] ^ 0xFF]);
    }
  }

  /** The wire after the fault's `count`-th active call. */
  function Mutated(wire: seq<byte>, count: nat, everyN: int, offset: int): Result<seq<byte>, MutateError> {
    if everyN == 0 then Err(ZeroDivision)
    else if count % everyN != 0 || offset >= |wire| - 2 then Ok(wire)
    else
      match Resolve(offset, |wire|)
      case None => Err(IndexOutOfRange)
      case Some(i) => Ok(wire[i := wire[i] ^ 0xFF])
  }

  /** How many of the wires passed to the active calls so far came out different. */
  function Hits(wires: seq<seq<byte>>, everyN: int, offset: int): nat {
    if wires == [] then 0
    else
      var n := |wires| - 1;
      Hits(wires[..n], everyN, offset) +
      if Mutated(wires[n], n + 1, everyN, offset) != Ok(wires[n]) then 1 else 0
  }

  /** The fault's offset points at a byte of the wire before its CRC. */
  predicate InReach(wire: seq<byte>, offset: int) {
    offset < |wire| - 2 && Resolve(offset, |wire|).Some?
  }

  lemma InvertedByteDiffers(x: byte)
    ensures x ^ 0xFF != x
  {
  }

  lemma ChangedIffMultiple(wire: seq<byte>, count: nat, everyN: int, offset: int)
    requires everyN > 0 && InReach(wire, offset)
    ensures Mutated(wire, count, everyN, offset) != Ok(wire) <==> count % everyN == 0
  {
    var i := Resolve(offset, |wire|).value;
    InvertedByteDiffers(wire[i]);
    assert wire[i := wire[i] ^ 0xFF][i] != wire[i];
  }

  lemma NextQuotient(k: nat, n: int)
    requires n > 0
    ensures (k + 1) / n == k / n + if (k + 1) % n == 0 then 1 else 0
  {
    var q, r := k / n, k % n;
    assert k == n * q + r;
    if r + 1 == n {
      assert k + 1 == n * (q + 1);
      Quotient(k + 1, n, q + 1, 0);
    } else {
      Quotient(k + 1, n, q, r + 1);
    }
  }

  lemma Multiples(n: int, d: int)
    requires n > 0
    ensures d >= 1 ==> n * d >= n
    ensures d <= -1 ==> n * d <= -n
  {
  }

  lemma Quotient(k: int, n: int, q: int, r: int)
    requires n > 0 && k == n * q + r && 0 <= r < n
    ensures k / n == q && k % n == r
  {
    var d := k / n - q;
    assert n * d == n * (k / n) - n * q;
    assert n * d == r - k % n;
    Multiples(n, d);
  }

  /** Of any wires in reach of the fault, exactly one in every `everyN` is changed. */
  lemma {:induction false} OneInEveryN(wires: seq<seq<byte>>, everyN: int, offset: int)
    requires everyN > 0 && forall w <- wires :: InReach(w, offset)
    ensures Hits(wires, everyN, offset) == |wires| / everyN
  {
    hide Mutated, InReach;
    if wires != [] {
      var n := |wires| - 1;
      assert forall w <- wires[..n] :: w in wires;
      assert wires[n] in wires;
      OneInEveryN(wires[..n], everyN, offset);
      ChangedIffMultiple(wires[n], n + 1, everyN, offset);
      NextQuotient(n, everyN);
    } else {
      Quotient(0, everyN, 0, 0);
    }
  }
}
