# Calculator: Java `int` addition, modelled and proved in Dafny

The repository has one production operation, `Calculator.add(int a, int b)`. It
returns `a + b` as a Java `int`. Java `int` addition is 32-bit
two's-complement addition (section 15.18.2 of the Java Language Specification).
When the exact sum does not fit in an `int`, the result is the low-order 32 bits
of the exact sum, read as a two's-complement number. No error is raised. The
repository's JUnit suite checks literal sums and the algebraic laws of
addition. This project models the operation and proves those laws for all
inputs.

- `java_int.dfy`, module `JavaInt`: the `int` type as the subset type `int32`
  of the range [-2^31, 2^31 - 1]. `Wrap` reduces an exact integer to an `int`
  modulo 2^32. `Neg` is Java's wrapped unary minus.
- `twos_complement.dfy`, module `TwosComplement`: a second, bit-level
  definition of the same arithmetic. An `int` is a 32-bit two's-complement
  pattern, a sequence of booleans with the least significant bit first.
  Addition is a ripple-carry adder that drops the carry out of the top bit.
- `calculator.dfy`, module `Calculator`: the class `Calculator`, which has no
  fields, as the pure function `Add`. The lemmas cover the laws and cases
  that the test suite asserts and two laws from section 15.18.2 (associativity,
  overflow detection).

## Model

| member | source | states |
|---|---|---|
| `Calculator.Add` | JUnitTask/src/main/java/org/task/Calculator.java:15-17 | the result is an `int` congruent to a + b modulo 2^32; it is exactly a + b when that fits; it is a + b - 2^32 on positive overflow and a + b + 2^32 on negative overflow |
| `Calculator.AddUnique` | JUnitTask/src/main/java/org/task/Calculator.java:16 | any `int` congruent to a + b modulo 2^32 is `Add(a, b)`, so the congruence alone defines `add` |
| `Calculator.AddIsBitAdder` | JUnitTask/src/main/java/org/task/Calculator.java:16 | `add` gives the same result as a 32-bit two's-complement adder: encode both operands, add the patterns and drop the carry, then decode |
| `Calculator.AddCommutative` | JUnitTask/src/test/java/org/task/AdditionFunctionTest.java:161-169 | add(a, b) == add(b, a) for all `int` a, b |
| `Calculator.AddAssociative` | JUnitTask/src/main/java/org/task/Calculator.java:16 | add(add(a, b), c) == add(a, add(b, c)) for all `int` a, b, c, including when a sum overflows |
| `Calculator.AddZeroIdentity` | JUnitTask/src/test/java/org/task/AdditionFunctionTest.java:85-96 | add(a, 0) == a and add(0, a) == a for all `int` a |
| `Calculator.AddInverse` | JUnitTask/src/test/java/org/task/AdditionFunctionTest.java:114-116 | add(a, -a) == 0 for every `int` a, using Java's wrapped negation, so it holds for `Integer.MIN_VALUE` too |
| `Calculator.AddOverflowBySign` | JUnitTask/src/main/java/org/task/Calculator.java:16 | the exact sum leaves the `int` range if and only if both operands have the same sign and the result has the opposite sign |
| `Calculator.AddPositive` | JUnitTask/src/test/java/org/task/AdditionFunctionTest.java:131-132 | for two positive operands, the result is positive if and only if a + b <= `Integer.MAX_VALUE` |
| `Calculator.AddBelowMax` | JUnitTask/src/test/java/org/task/AdditionFunctionTest.java:143-152 | adding a positive b to a with a + b < `Integer.MAX_VALUE` gives a result strictly between a and `Integer.MAX_VALUE` |
| `Calculator.PositiveNumbersCase` | JUnitTask/src/test/java/org/task/AdditionFunctionTest.java:45-56 | 5 + 3 == 8 |
| `Calculator.NegativeNumbersCase` | JUnitTask/src/test/java/org/task/AdditionFunctionTest.java:65-76 | -7 + -3 == -10 |
| `Calculator.WithZeroCases` | JUnitTask/src/test/java/org/task/AdditionFunctionTest.java:85-96 | 5 + 0 == 5, -3 + 0 == -3 and 0 + 0 == 0 |
| `Calculator.PositiveAndNegativeCases` | JUnitTask/src/test/java/org/task/AdditionFunctionTest.java:105-116 | 5 + -3 == 2, 3 + -5 == -2 and 4 + -4 == 0 |
| `Calculator.LargeNumbersCase` | JUnitTask/src/test/java/org/task/AdditionFunctionTest.java:125-134 | 1000000 + 2000000 is positive and equals 3000000 |
| `Calculator.NearIntegerLimitsCase` | JUnitTask/src/test/java/org/task/AdditionFunctionTest.java:143-152 | (MAX - 100) + 50 is below MAX and equals MAX - 50, where MAX is `Integer.MAX_VALUE` |
| `Calculator.CommutativeCase` | JUnitTask/src/test/java/org/task/AdditionFunctionTest.java:161-169 | 15 + 25 == 25 + 15 |
| `Calculator.MultipleScenariosCases` | JUnitTask/src/test/java/org/task/AdditionFunctionTest.java:178-190 | 7 + 3 == 10, -2 + -3 == -5 and -4 + 5 == 1; 10 + 5 > 0; 1 + 1 != 0 |
| `Calculator.ReturnValueCase` | JUnitTask/src/test/java/org/task/AdditionFunctionTest.java:199-204 | every result lies in the `int` range, so it is never absent; 1 + 2 == 3 |
| `JavaInt.Wrap` | JUnitTask/src/main/java/org/task/Calculator.java:16 | the result is an `int` with the same low-order 32 bits as x; it equals x when x fits; when x lies less than 2^32 above or below the range, it is x - 2^32 or x + 2^32 |
| `JavaInt.WrapUnique` | JUnitTask/src/main/java/org/task/Calculator.java:16 | `Wrap(x)` is the only `int` congruent to x modulo 2^32 |
| `JavaInt.WrapCongruent` | JUnitTask/src/main/java/org/task/Calculator.java:16 | two exact integers with the same low-order 32 bits wrap to the same `int` |
| `JavaInt.Neg` | JUnitTask/src/test/java/org/task/AdditionFunctionTest.java:115 | Java unary minus on `int`: -a when that fits, and `Integer.MIN_VALUE` for `Integer.MIN_VALUE` |
| `TwosComplement.Unsigned` | JUnitTask/src/main/java/org/task/Calculator.java:16 | the unsigned value of an n-bit pattern is below 2^n |
| `TwosComplement.Encode` | JUnitTask/src/main/java/org/task/Calculator.java:16 | for u < 2^n, the n-bit pattern produced has n bits and the value u |
| `TwosComplement.EncodeUnsigned` | JUnitTask/src/main/java/org/task/Calculator.java:16 | encoding the value of a pattern at its own length gives the pattern back |
| `TwosComplement.RippleAddCorrect` | JUnitTask/src/main/java/org/task/Calculator.java:16 | the ripple-carry adder, keeping the carry out of the top bit, computes the exact sum x + y + carry-in |
| `TwosComplement.AddBitsCorrect` | JUnitTask/src/main/java/org/task/Calculator.java:16 | the 32-bit adder (carry out dropped) gives a pattern whose value is the sum of the operands' values modulo 2^32 |
| `TwosComplement.ToBitsCorrect` | JUnitTask/src/main/java/org/task/Calculator.java:16 | the two's-complement pattern of an `int` has the `int`'s low-order 32 bits, and its top bit is set exactly for negative values |
| `TwosComplement.FromBitsCorrect` | JUnitTask/src/main/java/org/task/Calculator.java:16 | decoding a 32-bit pattern keeps its low-order 32 bits; the result is negative exactly when the top bit is set |
| `TwosComplement.BitsRoundTrip` | JUnitTask/src/main/java/org/task/Calculator.java:16 | FromBits(ToBits(a)) == a for every `int` a |
| `TwosComplement.BitsRoundTripInverse` | JUnitTask/src/main/java/org/task/Calculator.java:16 | ToBits(FromBits(bs)) == bs for every 32-bit pattern bs |

## Left out

- The JUnit lifecycle hooks `setUp` and `tearDown`: they only create and discard the test fixture.
- The console output in the test fixture: it is I/O with no effect on results.
- Construction of `Calculator` objects and nulling of the reference: the class has no fields, so an instance carries no state and `add` is a plain function.
- `assertInstanceOf(Integer.class, ...)` and autoboxing to `Integer`: Java runtime types have no counterpart here beyond "the result is an `int`", which the type `int32` states.
- The grouping done by `assertAll`: only the individual arithmetic facts it checks are modelled.
- Bit patterns are sequences of booleans, not Dafny `bv32` values. Only addition is modelled on them; Java's other bitwise and shift operators are not part of this model, because `add` does not use them.
