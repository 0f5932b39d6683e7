/** Two's-complement 64-bit arithmetic and the conversion of floats, where the
    source relies on Go's int64. */
module Int64 {
  const TWO_63: int := 0x8000_0000_0000_0000
  const TWO_64: int := 0x1_0000_0000_0000_0000

  type Int64 = x: int | -0x8000_0000_0000_0000 <= x < 0x8000_0000_0000_0000

  /** The int64 a mathematical integer wraps to. */
  function Wrap(x: int): Int64 {
    (x + TWO_63) % TWO_64 - TWO_63
  }

  lemma WrapCongruent(x: int)
    ensures (Wrap(x) - x) % TWO_64 == 0
    ensures -TWO_63 <= x < TWO_63 <==> Wrap(x) == x
  {
    var q := (x + TWO_63) / TWO_64;
    assert Wrap(x) - x == (-q) * TWO_64;
  }

  lemma WrapOfSum(x: int, y: int)
    ensures Wrap(Wrap(x) + y) == Wrap(x + y)
  {
    var a, q := x + TWO_63, (x + TWO_63) / TWO_64;
    assert Wrap(x) + y + TWO_63 == a + y + (-q) * TWO_64;
    ModShift(a + y, -q);
  }

  lemma ModShift(a: int, q: int)
    ensures (a + q * TWO_64) % TWO_64 == a % TWO_64
  {
    var k := (a + q * TWO_64) / TWO_64;
    assert a == (k - q) * TWO_64 + (a + q * TWO_64) % TWO_64;
  }

  function Min(a: int, b: int): int {
    if a <= b then a else b
  }

  /** Conversion of a float to an integer type truncates toward zero. */
  function Trunc(x: real): int {
    if x >= 0.0 then x.Floor else -(-x).Floor
  }

  /** A float outside int64 converts to the least int64 on the platforms Go
      leaves this to. */
  function Convert(x: real): Int64 {
    if x < TWO_63 as real && x > -(TWO_63 as real) then
      TruncInRange(x);
      Trunc(x)
    else -0x8000_0000_0000_0000
  }

  lemma TruncInRange(x: real)
    requires -(TWO_63 as real) < x < TWO_63 as real
    ensures -TWO_63 <= Trunc(x) < TWO_63
  {
    if x >= 0.0 {
      assert x.Floor as real <= x;
    } else {
      assert (-x).Floor as real <= -x;
    }
  }

  /** Truncation drops the fraction and keeps the sign. */
  lemma TruncTowardZero(x: real)
    ensures x >= 0.0 ==> 0.0 <= Trunc(x) as real <= x < Trunc(x) as real + 1.0
    ensures x <= 0.0 ==> Trunc(x) as real - 1.0 < x <= Trunc(x) as real <= 0.0
  {
    assert x.Floor as real <= x < x.Floor as real + 1.0;
    assert (-x).Floor as real <= -x < (-x).Floor as real + 1.0;
  }

  /** A conversion is a truncation exactly when that fits, at both ends. */
  lemma ConvertIff(x: real)
    ensures Convert(x) == Trunc(x) <==> -9223372036854775809.0 < x < 9223372036854775808.0
    ensures Convert(x) != Trunc(x) ==> Convert(x) == -9223372036854775808
  {
    TruncTowardZero(x);
  }
}
