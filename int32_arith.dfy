/**
 * C# `int` arithmetic as the source uses it: 32-bit two's-complement values,
 * unchecked (wrapping) addition and subtraction, and division that truncates
 * toward zero. Dafny's own `int` is unbounded and its `/` is Euclidean, so both
 * are written out here.
 */
module Int32Arith {
  import opened Wrappers

  const Int32Min: int := -0x8000_0000
  const Int32Max: int := 0x7FFF_FFFF

  /** A value of the C# type `int`. */
  type int32 = x: int | -0x8000_0000 <= x < 0x8000_0000

  /**
   * Unchecked wrap-around of a sum or difference of two `int32` values into
   * range: the result is the unique `int32` congruent to `x` modulo 2^32.
   */
  function Wrap32(x: int): (r: int32)
    requires -0x1_0000_0000 <= x < 0x1_0000_0000
    ensures r == x || r == x - 0x1_0000_0000 || r == x + 0x1_0000_0000
    ensures Int32Min <= x <= Int32Max ==> r == x
  {
    if x > Int32Max then x - 0x1_0000_0000
    else if x < Int32Min then x + 0x1_0000_0000
    else x
  }

  /** C# `a + b` on `int` in an unchecked context. */
  function Add32(a: int32, b: int32): int32 { Wrap32(a + b) }

  /** C# `a - b` on `int` in an unchecked context. */
  function Sub32(a: int32, b: int32): int32 { Wrap32(a - b) }

  /** Subtracting an operand from a wrapped sum gives the other operand: `(a + b) - a == b` in 32-bit arithmetic. */
  lemma SubAddCancel(a: int32, b: int32)
    ensures Sub32(Add32(a, b), a) == b
  {
  }

  /** Adding back a wrapped difference gives the original operand: `a + (b - a) == b` in 32-bit arithmetic. */
  lemma AddSubCancel(a: int32, b: int32)
    ensures Add32(a, Sub32(b, a)) == b
  {
  }

  /** C# integer division: the quotient is truncated toward zero. */
  function TruncDiv(a: int, b: int): (q: int)
    requires b > 0
    ensures (a >= 0 ==> 0 <= a - q * b < b) && (a < 0 ==> -b < a - q * b <= 0)
  {
    if a >= 0 then a / b else -((-a) / b)
  }

  /**
   * `RoundUpToHundred` exactly as written: `((value + 99) / 100) * 100` on C#
   * `int`, with the unchecked addition and the truncating division.
   */
  function RoundUpToHundred(value: int32): (r: int32)
    ensures r % 100 == 0
  {
    var sum := Add32(value, 99);
    var q := TruncDiv(sum, 100);
    assert -21474837 < q < 21474837;
    q * 100
  }

  /**
   * On the range where neither the wrap-around nor the truncation of a
   * negative sum interferes, `RoundUpToHundred` is the least multiple of 100
   * that is at least `value`.
   */
  lemma RoundUpToHundredCorrect(value: int32)
    requires -99 <= value <= Int32Max - 99
    ensures RoundUpToHundred(value) % 100 == 0
    ensures value <= RoundUpToHundred(value) < value + 100
  {
    var s := value + 99;
    assert Add32(value, 99) == s;
    assert s >= 0;
    assert TruncDiv(s, 100) == s / 100;
  }

  /** Truncation toward zero makes the helper round a negative value up by more than it should. */
  lemma RoundUpToHundredNegative()
    ensures RoundUpToHundred(-200) == -100
  {
    assert Add32(-200, 99) == -101;
    assert TruncDiv(-101, 100) == -1;
  }

  /** Near `int.MaxValue` the unchecked `value + 99` wraps and the result is negative. */
  lemma RoundUpToHundredWraps()
    ensures RoundUpToHundred(0x7FFF_FFFF) == -2147483500
  {
    assert Add32(0x7FFF_FFFF, 99) == -2147483550;
    assert TruncDiv(-2147483550, 100) == -21474835;
  }

  /**
   * The rounding the helper's name promises: the least multiple of 100 that
   * is at least `value`, or `None` when that multiple does not fit in an `int`.
   */
  function CeilToHundred(value: int32): (r: Option<int32>)
    ensures r.Some? <==> value <= 2147483600
    ensures r.Some? ==> r.value % 100 == 0 && value <= r.value < value + 100
  {
    if value > 2147483600 then None
    else
      var rem := value % 100;
      Some(if rem == 0 then value else value - rem + 100)
  }

  /** Where the helper as written is right, it agrees with the intended rounding. */
  lemma CeilToHundredAgrees(value: int32)
    requires -99 <= value <= Int32Max - 99
    ensures CeilToHundred(value) == Some(RoundUpToHundred(value))
  {
    RoundUpToHundredCorrect(value);
  }
}
