/** The loop's timing: absolute wake-up times that do not drift, and exact jitter statistics. */
module Timing {

  const SECOND_NS := 1_000_000_000
  const PERIOD_NS := 10_000_000

  // ---- C's integer division, which truncates towards zero ----

  function Quot(a: int, b: int): int
    requires b > 0
  {
    if a >= 0 then a / b else -((-a) / b)
  }

  function Rem(a: int, b: int): int
    requires b > 0
  {
    a - b * Quot(a, b)
  }

  // ---- timespec ----

  class Timespec {
    var sec: int
    var nsec: int

    constructor (sec: int, nsec: int)
      ensures this.sec == sec && this.nsec == nsec
    {
      this.sec, this.nsec := sec, nsec;
    }

    ghost predicate Normal()
      reads this
    {
      0 <= nsec < 1_000_000_000
    }

    ghost function Total(): int
      reads this
    {
      sec * 1_000_000_000 + nsec
    }

    /** Adds any number of nanoseconds, negative ones too, and normalises. */
    method AddNs(ns: int)
      modifies this
      ensures Normal() && Total() == old(Total()) + ns
    {
      var total := nsec + ns;
      sec := sec + Quot(total, SECOND_NS);
      nsec := Rem(total, SECOND_NS);
      if nsec < 0 {
        nsec := nsec + SECOND_NS;
        sec := sec - 1;
      }
    }
  }

  /** Microseconds from `a` to `b`: exact up to one microsecond, towards zero in the sub-second part. */
  method DiffUs(a: Timespec, b: Timespec) returns (us: int)
    ensures -1000 < b.Total() - a.Total() - 1000 * us < 1000
    ensures b.nsec >= a.nsec ==> 1000 * us <= b.Total() - a.Total()
    ensures b.nsec <= a.nsec ==> 1000 * us >= b.Total() - a.Total()
  {
    us := (b.sec - a.sec) * 1_000_000 + Quot(b.nsec - a.nsec, 1000);
  }

  /** `n` passes of the loop: the n-th wake-up is exactly n periods after the start. */
  method Schedule(next: Timespec, n: nat)
    requires next.Normal()
    modifies next
    ensures next.Normal() && next.Total() == old(next.Total()) + n * 10_000_000
  {
    for i := 0 to n
      invariant next.Normal() && next.Total() == old(next.Total()) + i * 10_000_000
    {
      next.AddNs(PERIOD_NS);
    }
  }

  // ---- Welford's accumulator, over the reals ----

  function Sum(xs: seq<int>): real {
    if xs == [] then 0.0 else Sum(xs[..|xs| - 1]) + xs[|xs| - 1] as real
  }

  /** Sum of the squared distances of the samples from `m`. */
  function SquaresAround(xs: seq<int>, m: real): real {
    if xs == [] then 0.0
    else
      var d := xs[|xs| - 1] as real - m;
      SquaresAround(xs[..|xs| - 1], m) + d * d
  }

  lemma Square(d: real, e: real)
    ensures (d + e) * (d + e) == d * d + 2.0 * e * d + e * e
  {
  }

  lemma Distribute(e: real, a: real, b: real)
    ensures 2.0 * e * (a + b) == 2.0 * e * a + 2.0 * e * b
  {
  }

  lemma OneMore(n: nat, r: real)
    ensures (n + 1) as real * r == n as real * r + r
  {
    assert (n + 1) as real == n as real + 1.0;
  }

  lemma LastTerm(xs: seq<int>, m: real)
    requires xs != []
    ensures var k := |xs| - 1;
            var d := xs[k] as real - m;
            && Sum(xs) == Sum(xs[..k]) + (d + m)
            && SquaresAround(xs, m) == SquaresAround(xs[..k], m) + d * d
  {
  }

  /** Moving the centre by `e` changes the spread by a term in the sum and one in the square. */
  lemma {:induction false} MoveCentre(xs: seq<int>, m: real, e: real)
    ensures SquaresAround(xs, m - e) ==
            SquaresAround(xs, m) + 2.0 * e * (Sum(xs) - |xs| as real * m) + |xs| as real * (e * e)
    decreases |xs|, 1
  {
    if xs != [] {
      MoveCentreStep(xs, m, e);
    }
  }

  lemma {:induction false} MoveCentreStep(xs: seq<int>, m: real, e: real)
    requires xs != []
    ensures SquaresAround(xs, m - e) ==
            SquaresAround(xs, m) + 2.0 * e * (Sum(xs) - |xs| as real * m) + |xs| as real * (e * e)
    decreases |xs|, 0
  {
    hide SquaresAround, Sum;
    var k := |xs| - 1;
    var d := xs[k] as real - m;
    MoveCentre(xs[..k], m, e);
    LastTerm(xs, m);
    LastTerm(xs, m - e);
    assert xs[k] as real - (m - e) == d + e;
    CentreTerms(k, Sum(xs[..k]), m, e, d);
  }

  lemma CentreTerms(k: nat, sum: real, m: real, e: real, d: real)
    ensures 2.0 * e * (sum - k as real * m) + k as real * (e * e) + (d + e) * (d + e) ==
            d * d + 2.0 * e * (sum + (d + m) - (k + 1) as real * m) + (k + 1) as real * (e * e)
  {
    Square(d, e);
    OneMore(k, m);
    OneMore(k, e * e);
    Distribute(e, sum - k as real * m, d);
    assert sum + (d + m) - (k + 1) as real * m == (sum - k as real * m) + d;
  }

  lemma MeanMoves(n: nat, mean: real, delta: real, q: real)
    requires (n + 1) as real * q == delta
    ensures (n + 1) as real * (mean + q) == n as real * mean + (mean + delta)
  {
    OneMore(n, mean);
    assert (n + 1) as real * (mean + q) == (n + 1) as real * mean + (n + 1) as real * q;
  }

  lemma SpreadMoves(n: nat, delta: real, q: real)
    requires (n + 1) as real * q == delta
    ensures n as real * (q * q) + (delta - q) * (delta - q) == delta * (delta - q)
  {
    OneMore(n, q);
    var r := delta - q;
    assert r == n as real * q;
    assert n as real * (q * q) == r * q;
    assert r * q + r * r == r * (q + r);
  }

  lemma Appended(xs: seq<int>, x: int, m: real)
    ensures Sum(xs + [x]) == Sum(xs) + x as real
    ensures SquaresAround(xs + [x], m) == SquaresAround(xs, m) + (x as real - m) * (x as real - m)
  {
    var ys := xs + [x];
    assert ys[..|ys| - 1] == xs;
  }

  lemma CentreOnMean(xs: seq<int>, mean: real, q: real)
    requires |xs| as real * mean == Sum(xs)
    ensures SquaresAround(xs, mean + q) == SquaresAround(xs, mean) + |xs| as real * (q * q)
  {
    hide SquaresAround, Sum;
    MoveCentre(xs, mean, -q);
    assert mean - -q == mean + q;
    assert (-q) * (-q) == q * q;
    assert 2.0 * (-q) * (Sum(xs) - |xs| as real * mean) == 0.0;
  }

  /** One sample more: mean and spread of the longer list from those of the shorter one. */
  lemma Welford(xs: seq<int>, x: int, mean: real, q: real)
    requires |xs| as real * mean == Sum(xs)
    requires (|xs| + 1) as real * q == x as real - mean
    ensures var ys := xs + [x];
            var delta := x as real - mean;
            && |ys| as real * (mean + q) == Sum(ys)
            && SquaresAround(ys, mean + q) == SquaresAround(xs, mean) + delta * (delta - q)
  {
    hide SquaresAround, Sum;
    var delta := x as real - mean;
    MeanMoves(|xs|, mean, delta, q);
    Appended(xs, x, mean + q);
    CentreOnMean(xs, mean, q);
    SpreadMoves(|xs|, delta, q);
    assert x as real - (mean + q) == delta - q;
  }

  const LONG_MAX := 0x7FFF_FFFF_FFFF_FFFF
  const LONG_MIN := -0x8000_0000_0000_0000

  class Jitter {
    var n: nat
    var mean: real
    var m2: real
    var min: int
    var max: int
    ghost var samples: seq<int>

    /** Mean, spread and extremes are those of the samples, exactly. */
    ghost predicate Valid()
      reads this
    {
      && n == |samples|
      && n as real * mean == Sum(samples)
      && m2 == SquaresAround(samples, mean)
      && (n == 0 ==> min == LONG_MAX && max == LONG_MIN && mean == 0.0)
      && (n > 0 ==> min in samples && max in samples)
      && forall x <- samples :: min <= x <= max
    }

    constructor ()
      ensures Valid() && samples == []
    {
      n, mean, m2, min, max, samples := 0, 0.0, 0.0, LONG_MAX, LONG_MIN, [];
    }

    method Add(us: int)
      requires Valid() && LONG_MIN <= us <= LONG_MAX
      modifies this
      ensures Valid() && samples == old(samples) + [us]
    {
      hide SquaresAround, Sum;
      Accumulate(us);
      Widen(us);
      samples := samples + [us];
    }

    /** The running mean and the running sum of squares. */
    method Accumulate(us: int)
      requires n == |samples| && n as real * mean == Sum(samples)
      requires m2 == SquaresAround(samples, mean)
      modifies this`n, this`mean, this`m2
      ensures n == old(n) + 1
      ensures n as real * mean == Sum(samples + [us])
      ensures m2 == SquaresAround(samples + [us], mean)
    {
      hide SquaresAround, Sum;
      ghost var before := mean;
      n := n + 1;
      var delta := us as real - mean;
      ghost var q := delta / n as real;
      Divided(n, delta);
      Welford(samples, us, before, q);
      mean := mean + delta / n as real;
      var delta2 := us as real - mean;
      assert mean == before + q && delta2 == delta - q;
      m2 := m2 + delta * delta2;
    }

    method Widen(us: int)
      requires forall y <- samples :: min <= y <= max
      requires samples != [] ==> min in samples && max in samples
      requires samples == [] ==> min == LONG_MAX && max == LONG_MIN
      requires LONG_MIN <= us <= LONG_MAX
      modifies this`min, this`max
      ensures var ys := samples + [us];
              && min in ys && max in ys
              && forall y <- ys :: min <= y <= max
    {
      Extremes(samples, us, min, max);
      if us < min {
        min := us;
      }
      if us > max {
        max := us;
      }
    }
  }

  lemma Divided(n: nat, delta: real)
    requires n > 0
    ensures n as real * (delta / n as real) == delta
  {
  }

  lemma Extremes(xs: seq<int>, x: int, min: int, max: int)
    requires forall y <- xs :: min <= y <= max
    requires xs != [] ==> min in xs && max in xs
    requires xs == [] ==> min == LONG_MAX && max == LONG_MIN
    requires LONG_MIN <= x <= LONG_MAX
    ensures var lo, hi := if x < min then x else min, if x > max then x else max;
            var ys := xs + [x];
            && lo in ys && hi in ys
            && forall y <- ys :: lo <= y <= hi
  {
    assert x in xs + [x];
  }
}
