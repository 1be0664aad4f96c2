/**
 * Java's primitive type `int`: a 32-bit two's-complement integer.
 *
 * Section 15.18.2 of the Java Language Specification defines integer addition
 * on `int`: if the exact sum does not fit, the result is the low-order 32 bits
 * of the exact sum, read back as a two's-complement number. This module gives
 * that reduction arithmetically (`Wrap`, modulo 2^32); the module
 * `TwosComplement` gives it on bit patterns.
 */
module JavaInt {

  /** Number of distinct `int` values, 2^32. */
  const TWO_32: int := 0x1_0000_0000
  /** `Integer.MIN_VALUE`, -2^31. */
  const MIN: int := -0x8000_0000
  /** `Integer.MAX_VALUE`, 2^31 - 1. */
  const MAX: int := 0x7fff_ffff

  /** A value of Java type `int`. */
  type int32 = x: int | -0x8000_0000 <= x <= 0x7fff_ffff

  predicate InRange(x: int) {
    MIN <= x <= MAX
  }

  /** x and y have the same low-order 32 bits. */
  predicate Congruent(x: int, y: int) {
    (x - y) % TWO_32 == 0
  }

  /** The `int` whose 32 bits are the low-order 32 bits of the exact integer x. */
  function Wrap(x: int): (r: int32)
    ensures Congruent(r, x)
    ensures InRange(x) ==> r == x
    ensures x > MAX && x - TWO_32 <= MAX ==> r == x - TWO_32
    ensures x < MIN && x + TWO_32 >= MIN ==> r == x + TWO_32
  {
    var m := x % TWO_32;
    if m <= MAX then m else m - TWO_32
  }

  /** Two `int`s with the same low-order 32 bits are the same `int`. */
  lemma CongruentInt32Equal(r: int32, s: int32)
    requires Congruent(r, s)
    ensures r == s
  {
  }

  /** Congruence is transitive. */
  lemma CongruentTrans(x: int, y: int, z: int)
    requires Congruent(x, y) && Congruent(y, z)
    ensures Congruent(x, z)
  {
  }

  /** Reducing modulo 2^32 keeps the low-order 32 bits. */
  lemma ModCongruent(x: int)
    ensures Congruent(x % TWO_32, x)
  {
  }

  /** Sums of pairwise congruent terms are congruent. */
  lemma CongruentSum(x: int, x': int, y: int, y': int)
    requires Congruent(x, x') && Congruent(y, y')
    ensures Congruent(x + y, x' + y')
  {
  }

  /**
   * `Wrap` is the only reduction to `int` that keeps the low-order 32 bits:
   * any `int` congruent to x is `Wrap(x)`.
   */
  lemma WrapUnique(x: int, r: int32)
    requires Congruent(r, x)
    ensures r == Wrap(x)
  {
  }

  /** `Wrap` depends only on the low-order 32 bits of its argument. */
  lemma {:induction false} WrapCongruent(x: int, y: int)
    requires Congruent(x, y)
    ensures Wrap(x) == Wrap(y)
  {
    CongruentTrans(Wrap(x), x, y);
    WrapUnique(y, Wrap(x));
  }

  /**
   * Adding values that agree with a and b in their low-order 32 bits, and
   * reducing modulo 2^32, keeps the low-order 32 bits of a + b: the only
   * `int` with those bits is `Wrap(a + b)`.
   */
  lemma {:induction false} WrapOfCongruentSum(a: int, b: int, u: int, v: int, s: int, r: int32)
    requires Congruent(u, a) && Congruent(v, b)
    requires s == (u + v) % TWO_32 && Congruent(r, s)
    ensures r == Wrap(a + b)
  {
    CongruentSum(u, a, v, b);
    ModCongruent(u + v);
    CongruentTrans(r, s, u + v);
    CongruentTrans(r, u + v, a + b);
    WrapUnique(a + b, r);
  }

  /** Wrapped unary minus, Java `-a` on `int`: `-Integer.MIN_VALUE` is `Integer.MIN_VALUE`. */
  function Neg(a: int32): (r: int32)
    ensures Congruent(r, 0 - a as int)
    ensures a != MIN ==> r == 0 - a as int
    ensures a == MIN ==> r == MIN
  {
    Wrap(0 - a as int)
  }
}
