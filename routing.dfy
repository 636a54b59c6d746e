/**
 * How the cache picks the set of a key: Math.abs(hash % totalSets), with
 * Java's remainder (truncated division, the sign follows the dividend) and
 * Java's 32-bit int arithmetic where the facade multiplies.
 */
module Routing {

  /** Java's `/` on int: the quotient is rounded toward zero. */
  function JavaQuot(a: int, n: int): (q: int)
    requires n > 0
    ensures Abs(q) * n <= Abs(a) < (Abs(q) + 1) * n
    ensures a >= 0 ==> q >= 0
    ensures a <= 0 ==> q <= 0
  {
    var m := Abs(a) / n;
    QuotBounds(Abs(a), n);
    assert Abs(m) == Abs(-m) == m;
    if a >= 0 then m else -m
  }

  /** The Euclidean quotient of a natural number brackets it between two multiples of the divisor. */
  lemma QuotBounds(a: nat, n: int)
    requires n > 0
    ensures (a / n) * n <= a < (a / n + 1) * n
  {
    var q, m := a / n, a % n;
    assert a == q * n + m && 0 <= m < n;
    assert (q + 1) * n == q * n + n;
  }

  /** Java's `%` on int: the remainder of JavaQuot, so it takes the sign of the dividend. */
  function JavaRem(a: int, n: int): (r: int)
    requires n > 0
    ensures -n < r < n
    ensures a >= 0 ==> r >= 0
    ensures a <= 0 ==> r <= 0
  {
    if a >= 0 then a % n else -((-a) % n)
  }

  /** Math.abs on unbounded integers. */
  function Abs(x: int): (r: nat)
    ensures r == x || r == -x
    ensures r >= x && r >= -x
  {
    if x < 0 then -x else x
  }

  /** The division identity of section 15.17.3 of the Java Language Specification: (a / n) * n + a % n == a. */
  lemma JavaDivision(a: int, n: int)
    requires n > 0
    ensures JavaQuot(a, n) * n + JavaRem(a, n) == a
    ensures Abs(JavaRem(a, n)) < n
  {
  }

  /** indexOf: the set a hash value selects. */
  function SetIndex(h: int, totalSets: int): (i: nat)
    requires totalSets > 0
    ensures i < totalSets
  {
    Abs(JavaRem(h, totalSets))
  }

  /**
   * The index is the remainder of |h|, so it is a valid index for every
   * hash value, and a hash value and its negation select the same set.
   */
  lemma SetIndexOfAbs(h: int, totalSets: int)
    requires totalSets > 0
    ensures SetIndex(h, totalSets) == Abs(h) % totalSets
    ensures SetIndex(-h, totalSets) == SetIndex(h, totalSets)
  {
  }

  const Int32Modulus: int := 0x1_0000_0000

  /** A Java int result: the value reduced to [-2^31, 2^31) by two's-complement wrap-around. */
  function WrapInt32(x: int): (r: int)
    ensures -0x8000_0000 <= r < 0x8000_0000
    ensures (r - x) % Int32Modulus == 0
    ensures -0x8000_0000 <= x < 0x8000_0000 ==> r == x
  {
    var m := x % Int32Modulus;
    if m >= 0x8000_0000 then m - Int32Modulus else m
  }

  /** Wrapping an int sum step by step gives the wrap of the whole sum, as Java's int accumulation does. */
  lemma WrapAdd(x: int, y: int)
    ensures WrapInt32(WrapInt32(x) + y) == WrapInt32(x + y)
  {
    var d := WrapInt32(x) - x;
    assert d % Int32Modulus == 0;
    var k := d / Int32Modulus;
    assert d == k * Int32Modulus;
    var a, b := WrapInt32(x) + y, x + y;
    assert a == b + k * Int32Modulus;
    assert a % Int32Modulus == b % Int32Modulus;
  }

  /** An int sum wraps to zero exactly when the unbounded sum is a multiple of 2^32. */
  lemma WrapZero(x: int)
    ensures WrapInt32(x) == 0 <==> x % Int32Modulus == 0
    ensures 0 <= x < Int32Modulus ==> (WrapInt32(x) == 0 <==> x == 0)
  {
  }
}
