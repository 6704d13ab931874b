/**
 * Java's `int`: 32-bit two's-complement integers, the `+` operator that wraps
 * around on overflow, and `Integer.compare`.
 */
module JavaInt {

  const MIN_VALUE: int := -0x8000_0000
  const MAX_VALUE: int := 0x7fff_ffff
  /** 2^32: two `int` values that differ by a multiple of it have the same bits. */
  const MODULUS: int := 0x1_0000_0000

  /** A value of Java type `int`. */
  type Int32 = v: int | -0x8000_0000 <= v <= 0x7fff_ffff

  /**
   * Reduces an exact integer into the `int` range the way the JVM does:
   * keep the low 32 bits and read them as two's complement.
   * The result is the unique `int` congruent to `v` modulo 2^32.
   */
  function Wrap(v: int): (r: Int32)
    ensures (r - v) % MODULUS == 0
    ensures MIN_VALUE <= v <= MAX_VALUE ==> r == v
    ensures MAX_VALUE < v <= MAX_VALUE + MODULUS ==> r == v - MODULUS
    ensures MIN_VALUE - MODULUS <= v < MIN_VALUE ==> r == v + MODULUS
  {
    (v - MIN_VALUE) % MODULUS + MIN_VALUE
  }

  /** `Integer.compare(a, b)`: -1, 0 or 1 as `a` is below, equal to or above `b`. */
  function Compare(a: Int32, b: Int32): (c: int)
    ensures c == -1 || c == 0 || c == 1
    ensures c < 0 <==> a < b
    ensures c == 0 <==> a == b
    ensures c > 0 <==> a > b
  {
    if a < b then -1 else if a == b then 0 else 1
  }

  /** Shifting by a multiple of 2^32 does not change the remainder modulo 2^32. */
  lemma {:induction false} ModShift(v: int, q: int)
    ensures (v + MODULUS * q) % MODULUS == v % MODULUS
  {
    var d, m := v / MODULUS, v % MODULUS;
    assert v + MODULUS * q == MODULUS * (d + q) + m;
  }

  /** Wrapping an intermediate result early does not change the final wrapped value. */
  lemma {:induction false} WrapAbsorbs(v: int, w: int)
    ensures Wrap(Wrap(v) + w) == Wrap(v + w)
  {
    var q := (v - MIN_VALUE) / MODULUS;
    assert Wrap(v) == v - MODULUS * q;
    ModShift(v + w - MIN_VALUE, -q);
    assert Wrap(v) + w - MIN_VALUE == v + w - MIN_VALUE + MODULUS * -q;
  }
}
