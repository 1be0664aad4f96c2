/**
 * The class `Calculator` of the repository: a stateless object whose one
 * operation, `add`, returns the Java `int` sum of its two `int` arguments.
 * Having no fields, the class is modelled by a function; the properties its
 * JUnit suite asserts are the lemmas below.
 */
module Calculator {
  import opened JavaInt
  import opened TwosComplement

  /**
   * `Calculator.add(a, b)`: Java `a + b` on `int`. The result is always an
   * `int`; it is the exact sum when that fits, and otherwise the exact sum's
   * low-order 32 bits.
   */
  function Add(a: int32, b: int32): (r: int32)
    ensures Congruent(r, a + b)
    ensures InRange(a + b) ==> r == a + b
    ensures a + b > MAX ==> r == a + b - TWO_32
    ensures a + b < MIN ==> r == a + b + TWO_32
  {
    Wrap(a as int + b as int)
  }

  /** `Add` is determined by its congruence: no other `int` has the sum's low-order 32 bits. */
  lemma AddUnique(a: int32, b: int32, r: int32)
    requires Congruent(r, a as int + b as int)
    ensures r == Add(a, b)
  {
  }

  /**
   * `Add` agrees with the 32-bit two's-complement adder: encode both operands
   * as bit patterns, add them with the carry out of the top bit dropped, decode.
   */
  lemma {:induction false} AddIsBitAdder(a: int32, b: int32)
    ensures Add(a, b) == FromBits(AddBits(ToBits(a), ToBits(b)))
  {
    var x, y := ToBits(a), ToBits(b);
    var w := AddBits(x, y);
    ToBitsCorrect(a);
    ToBitsCorrect(b);
    AddBitsCorrect(x, y);
    FromBitsCorrect(w);
    WrapOfCongruentSum(a, b, Unsigned(x), Unsigned(y), Unsigned(w), FromBits(w));
  }

  /** Java `a + b` on `int` is commutative. */
  lemma AddCommutative(a: int32, b: int32)
    ensures Add(a, b) == Add(b, a)
  {
  }

  /** Java `a + b` on `int` is associative, overflow or not. */
  lemma AddAssociative(a: int32, b: int32, c: int32)
    ensures Add(Add(a, b), c) == Add(a, Add(b, c))
  {
  }

  /** 0 is the identity of `add`. */
  lemma AddZeroIdentity(a: int32)
    ensures Add(a, 0) == a
    ensures Add(0, a) == a
  {
  }

  /** Adding the wrapped negation gives 0, also for `Integer.MIN_VALUE`. */
  lemma AddInverse(a: int32)
    ensures Add(a, Neg(a)) == 0
  {
  }

  /**
   * Overflow, as `Math.addExact` detects it: the exact sum leaves the `int`
   * range exactly when both operands have the same sign and the result has
   * the other sign.
   */
  lemma AddOverflowBySign(a: int32, b: int32)
    ensures !InRange(a as int + b as int) <==> ((a >= 0) == (b >= 0) && (Add(a, b) >= 0) != (a >= 0))
  {
  }

  /**
   * Two positive operands give a positive result exactly when their sum does
   * not exceed `Integer.MAX_VALUE`; past that it wraps to a negative `int`.
   */
  lemma AddPositive(a: int32, b: int32)
    requires a > 0 && b > 0
    ensures Add(a, b) > 0 <==> a as int + b as int <= MAX
  {
  }

  /** Adding a positive `int` to one at least that far below `Integer.MAX_VALUE` gives a result below it. */
  lemma AddBelowMax(a: int32, b: int32)
    requires 0 < b && a as int + b as int < MAX
    ensures a < Add(a, b) < MAX
  {
  }

  /** `testAddPositiveNumbers`: 5 + 3 == 8. */
  lemma PositiveNumbersCase()
    ensures Add(5, 3) == 8
  {
  }

  /** `testAddNegativeNumbers`: -7 + -3 == -10. */
  lemma NegativeNumbersCase()
    ensures Add(-7, -3) == -10
  {
  }

  /** `testAddWithZero`. */
  lemma WithZeroCases()
    ensures Add(5, 0) == 5 && Add(-3, 0) == -3 && Add(0, 0) == 0
  {
  }

  /** `testAddPositiveAndNegative`. */
  lemma PositiveAndNegativeCases()
    ensures Add(5, -3) == 2 && Add(3, -5) == -2 && Add(4, -4) == 0
  {
  }

  /** `testAddLargeNumbers`. */
  lemma LargeNumbersCase()
    ensures Add(1000000, 2000000) > 0
    ensures Add(1000000, 2000000) == 3000000
  {
  }

  /** `testAddNearIntegerLimits`. */
  lemma NearIntegerLimitsCase()
    ensures Add(MAX - 100, 50) < MAX
    ensures Add(MAX - 100, 50) == MAX - 50
  {
  }

  /** `testCommutativeProperty`. */
  lemma CommutativeCase()
    ensures Add(15, 25) == Add(25, 15)
  {
  }

  /** `testMultipleScenarios`. */
  lemma MultipleScenariosCases()
    ensures Add(7, 3) == 10
    ensures Add(-2, -3) == -5
    ensures Add(-4, 5) == 1
    ensures Add(10, 5) > 0
    ensures Add(1, 1) != 0
  {
  }

  /** `testReturnValueNotNull`: the result is an `int` (a value in the `int` range, never absent). */
  lemma ReturnValueCase(a: int32, b: int32)
    ensures MIN <= Add(a, b) <= MAX
    ensures Add(1, 2) == 3
  {
  }
}
