/** Go's sized integers: conversions keep the low bits. */
module GoInts {

  const TWO_31 := 0x8000_0000
  const TWO_63 := 0x8000_0000_0000_0000

  /** int32(x) for an x of any size. */
  function Int32(x: int): (r: int)
    ensures -TWO_31 <= r < TWO_31
    ensures (r - x) % (2 * TWO_31) == 0
  {
    (x + TWO_31) % (2 * TWO_31) - TWO_31
  }

  /** An int64 result of an operation whose exact value is x. */
  function Int64(x: int): (r: int)
    ensures -TWO_63 <= r < TWO_63
    ensures (r - x) % (2 * TWO_63) == 0
  {
    (x + TWO_63) % (2 * TWO_63) - TWO_63
  }

  lemma Int32Exact(x: int)
    ensures Int32(x) == x <==> -TWO_31 <= x < TWO_31
  {
  }

  lemma Int64Exact(x: int)
    ensures Int64(x) == x <==> -TWO_63 <= x < TWO_63
  {
  }

  /** A value that does not fit comes back at least 2^64 away. */
  lemma Int64Wraps(x: int)
    requires !(-TWO_63 <= x < TWO_63)
    ensures Int64(x) - x >= 2 * TWO_63 || x - Int64(x) >= 2 * TWO_63
  {
    var r := Int64(x);
    var q := (r - x) / (2 * TWO_63);
    assert r - x == q * (2 * TWO_63);
  }
}
