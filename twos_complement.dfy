/**
 * The bit-level reading of Java `int` arithmetic: an `int` is a pattern of 32
 * bits in two's-complement form, and `+` is a 32-bit ripple-carry adder whose
 * carry out of the top bit is dropped (section 15.18.2 of the Java Language
 * Specification: the result is the low-order bits of the exact sum). Patterns
 * are sequences of booleans, least significant bit first.
 */
module TwosComplement {
  import opened JavaInt

  /** Bits in an `int`. */
  const WIDTH: nat := 32

  function Pow2(n: nat): (p: nat)
    ensures p >= 1
  {
    if n == 0 then 1 else 2 * Pow2(n - 1)
  }

  /** Exponents add: 2^(m+n) == 2^m * 2^n. */
  lemma {:induction false} Pow2Add(m: nat, n: nat)
    ensures Pow2(m + n) == Pow2(m) * Pow2(n)
  {
    if m > 0 {
      Pow2Add(m - 1, n);
      assert Pow2(m + n) == 2 * Pow2(m - 1 + n);
    }
  }

  lemma Pow2Width()
    ensures Pow2(WIDTH) == TWO_32
    ensures Pow2(WIDTH - 1) == MAX + 1
  {
    assert Pow2(1) == 2;
    Pow2Add(1, 1);
    Pow2Add(2, 2);
    Pow2Add(4, 4);
    Pow2Add(8, 8);
    Pow2Add(16, 16);
    Pow2Add(16, 15);
    Pow2Add(8, 7);
    Pow2Add(4, 3);
    Pow2Add(2, 1);
  }

  function Bit(b: bool): nat {
    if b then 1 else 0
  }

  /** The value of a bit pattern read as an unsigned binary number. */
  function Unsigned(bs: seq<bool>): (u: nat)
    ensures u < Pow2(|bs|)
  {
    if bs == [] then 0 else Bit(bs[0]) + 2 * Unsigned(bs[1..])
  }

  /** The top bit of a pattern carries the weight 2^(n-1); the bits below it make the rest. */
  lemma {:induction false} UnsignedSplit(s: seq<bool>)
    requires |s| >= 1
    ensures Unsigned(s) == Unsigned(s[..|s| - 1]) + Pow2(|s| - 1) * Bit(s[|s| - 1])
  {
    var n := |s| - 1;
    if n > 0 {
      var t := s[1..];
      UnsignedSplit(t);
      assert t[..n - 1] == s[..n][1..];
      assert t[n - 1] == s[n];
      assert Pow2(n) == 2 * Pow2(n - 1);
    }
  }

  /** The n-bit binary pattern of u. */
  function Encode(u: nat, n: nat): (bs: seq<bool>)
    requires u < Pow2(n)
    ensures |bs| == n
    ensures Unsigned(bs) == u
  {
    if n == 0 then []
    else
      var rest := Encode(u / 2, n - 1);
      var bs := [u % 2 == 1] + rest;
      assert bs[1..] == rest;
      bs
  }

  /** Encoding the value of a pattern gives the pattern back. */
  lemma {:induction false} EncodeUnsigned(bs: seq<bool>)
    ensures Encode(Unsigned(bs), |bs|) == bs
  {
    if bs != [] {
      var u := Unsigned(bs);
      assert u / 2 == Unsigned(bs[1..]);
      EncodeUnsigned(bs[1..]);
      assert Encode(u, |bs|) == [u % 2 == 1] + Encode(u / 2, |bs| - 1);
    }
  }

  /**
   * Ripple-carry addition of two patterns of the same length: the sum bit and
   * the carry of each position, and the carry out of the top as an extra bit.
   */
  function RippleAdd(x: seq<bool>, y: seq<bool>, carry: bool): (s: seq<bool>)
    requires |x| == |y|
    ensures |s| == |x| + 1
  {
    if x == [] then [carry]
    else
      var total := Bit(x[0]) + Bit(y[0]) + Bit(carry);
      [total % 2 == 1] + RippleAdd(x[1..], y[1..], total >= 2)
  }

  /** The ripple-carry adder computes the exact sum. */
  lemma {:induction false} RippleAddCorrect(x: seq<bool>, y: seq<bool>, carry: bool)
    requires |x| == |y|
    ensures Unsigned(RippleAdd(x, y, carry)) == Unsigned(x) + Unsigned(y) + Bit(carry)
  {
    if x != [] {
      var total := Bit(x[0]) + Bit(y[0]) + Bit(carry);
      var s := RippleAdd(x, y, carry);
      var rest := RippleAdd(x[1..], y[1..], total >= 2);
      RippleAddCorrect(x[1..], y[1..], total >= 2);
      assert s[1..] == rest;
      assert Unsigned(s) == Bit(s[0]) + 2 * Unsigned(rest);
      assert Bit(s[0]) + 2 * Bit(total >= 2) == total;
    }
  }

  /** The 32-bit adder: ripple-carry addition with the carry out of the top bit dropped. */
  function AddBits(x: seq<bool>, y: seq<bool>): (w: seq<bool>)
    requires |x| == WIDTH && |y| == WIDTH
    ensures |w| == WIDTH
  {
    RippleAdd(x, y, false)[..WIDTH]
  }

  /** The 32-bit adder keeps the low-order 32 bits of the sum of the operands' values. */
  lemma {:induction false} AddBitsCorrect(x: seq<bool>, y: seq<bool>)
    requires |x| == WIDTH && |y| == WIDTH
    ensures Unsigned(AddBits(x, y)) == (Unsigned(x) + Unsigned(y)) % TWO_32
  {
    var s := RippleAdd(x, y, false);
    RippleAddCorrect(x, y, false);
    UnsignedSplit(s);
    Pow2Width();
  }

  /** The two's-complement pattern of an `int`. */
  function ToBits(a: int32): (bs: seq<bool>)
    ensures |bs| == WIDTH
  {
    Pow2Width();
    Encode(if a < 0 then a as int + TWO_32 else a as int, WIDTH)
  }

  /** The pattern of an `int` has the `int`'s low-order 32 bits, and its top bit is the sign. */
  lemma {:induction false} ToBitsCorrect(a: int32)
    ensures Congruent(Unsigned(ToBits(a)), a)
    ensures ToBits(a)[WIDTH - 1] <==> a < 0
  {
    var bs := ToBits(a);
    Pow2Width();
    UnsignedSplit(bs);
  }

  /** The `int` a pattern stands for: the top bit has weight -2^31, the others their usual weights. */
  function FromBits(bs: seq<bool>): (a: int32)
    requires |bs| == WIDTH
  {
    Pow2Width();
    Unsigned(bs[..WIDTH - 1]) - Pow2(WIDTH - 1) * Bit(bs[WIDTH - 1])
  }

  /** Decoding keeps the pattern's low-order 32 bits, and the result is negative exactly when the top bit is set. */
  lemma {:induction false} FromBitsCorrect(bs: seq<bool>)
    requires |bs| == WIDTH
    ensures Congruent(FromBits(bs), Unsigned(bs))
    ensures FromBits(bs) < 0 <==> bs[WIDTH - 1]
  {
    Pow2Width();
    UnsignedSplit(bs);
  }

  /** Encoding an `int` as bits and decoding gives the `int` back. */
  lemma {:induction false} BitsRoundTrip(a: int32)
    ensures FromBits(ToBits(a)) == a
  {
    var bs := ToBits(a);
    ToBitsCorrect(a);
    FromBitsCorrect(bs);
    CongruentTrans(FromBits(bs), Unsigned(bs), a);
    CongruentInt32Equal(FromBits(bs), a);
  }

  /** Decoding a 32-bit pattern and encoding gives the pattern back. */
  lemma {:induction false} BitsRoundTripInverse(bs: seq<bool>)
    requires |bs| == WIDTH
    ensures ToBits(FromBits(bs)) == bs
  {
    var a := FromBits(bs);
    var u := Unsigned(bs);
    Pow2Width();
    UnsignedSplit(bs);
    assert (if a < 0 then a as int + TWO_32 else a as int) == u;
    EncodeUnsigned(bs);
  }
}
