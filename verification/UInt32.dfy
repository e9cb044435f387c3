/** C's `uint32_t`: unsigned arithmetic that wraps. */
module UInt32 {

  const U32 := 0x1_0000_0000

  type uint32 = n: nat | n < U32

  function Wrap32(n: nat): uint32 {
    n % U32
  }

  lemma RemainderUnique(n: int, q: int, r: int)
    requires n == 0x1_0000_0000 * q + r && 0 <= r < 0x1_0000_0000
    ensures n % 0x1_0000_0000 == r
  {
  }

  lemma WrapSmall(n: uint32)
    ensures Wrap32(n) == n
  {
    RemainderUnique(n, 0, n);
  }

  /** Wrapping at every addition or once at the end is the same. */
  lemma WrapAdds(a: nat, b: nat)
    ensures Wrap32(Wrap32(a) + b) == Wrap32(a + b)
  {
    var q, r := a / U32, a % U32;
    var t, s := (r + b) / U32, (r + b) % U32;
    assert a + b == U32 * (q + t) + s;
    RemainderUnique(a + b, q + t, s);
  }
}
