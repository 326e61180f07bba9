/**
 * C# `int` arithmetic on Dafny's unbounded integers: the 32-bit range,
 * unchecked wrap-around, and division that truncates toward zero and throws
 * on a zero divisor or on `int.MinValue / -1`.
 */
module Int32 {
  import opened Wrappers

  const Modulus: int := 0x1_0000_0000
  const MinValue: int := -0x8000_0000
  const MaxValue: int := 0x7FFF_FFFF

  predicate InRange(x: int) {
    MinValue <= x <= MaxValue
  }

  type int32 = x: int | InRange(x)

  function Abs(x: int): nat {
    if x < 0 then -x else x
  }

  /** The result of unchecked C# arithmetic: the int32 congruent to `x` modulo 2^32. */
  function Wrap(x: int): (r: int32)
    ensures (r - x) % Modulus == 0
    ensures InRange(x) ==> r == x
  {
    var m := x % Modulus;
    if m <= MaxValue then m else m - Modulus
  }

  /** Two int32 values congruent modulo 2^32 are equal: Wrap loses nothing in range. */
  lemma CongruentInt32sAreEqual(a: int32, b: int32)
    requires (a - b) % Modulus == 0
    ensures a == b
  {
    assert InRange(a) && InRange(b);
    var d := a - b;
    assert -Modulus < d < Modulus;
    var k := d / Modulus;
    assert d == Modulus * k;
  }

  /** Wrap is a function of the residue of its argument modulo 2^32. */
  lemma WrapCongruent(x: int, y: int)
    requires (x - y) % Modulus == 0
    ensures Wrap(x) == Wrap(y)
  {
    var a, b := Wrap(x), Wrap(y);
    ModuloSum(a - x, x - y, y - b);
    CongruentInt32sAreEqual(a, b);
  }

  /** The sum of three multiples of 2^32 is one. */
  lemma ModuloSum(p: int, q: int, r: int)
    requires p % Modulus == 0 && q % Modulus == 0 && r % Modulus == 0
    ensures (p + q + r) % Modulus == 0
  {
    assert p == Modulus * (p / Modulus);
    assert q == Modulus * (q / Modulus);
    assert r == Modulus * (r / Modulus);
    var k := p / Modulus + q / Modulus + r / Modulus;
    assert p + q + r == Modulus * k;
  }

  /** Division that rounds toward zero, as C#, C, Java and Go do. */
  function TruncDiv(a: int, b: int): int
    requires b != 0
  {
    var m := Abs(a) / Abs(b);
    if (a < 0) == (b < 0) then m else -m
  }

  /** On non-negative operands truncating division agrees with Dafny's Euclidean `/`. */
  lemma TruncDivOfNonNegatives(a: int, b: int)
    requires a >= 0 && b > 0
    ensures TruncDiv(a, b) == a / b
  {
  }

  /** Euclidean division of naturals: the quotient times the divisor lies within one divisor below the dividend. */
  lemma DivBounds(x: nat, y: nat)
    requires y > 0
    ensures (x / y) * y <= x < (x / y) * y + y
  {
    assert x == (x / y) * y + x % y;
  }

  lemma MulMonotonic(a: nat, b: nat, c: nat)
    requires b <= c
    ensures a * b <= a * c
  {
  }

  /** Dividing a natural by a positive divisor never grows it, and strictly shrinks it for a divisor above one. */
  lemma DivShrinks(x: nat, y: nat)
    requires y > 0
    ensures x / y <= x
    ensures y > 1 && x > 0 ==> x / y < x
  {
    var q := x / y;
    DivBounds(x, y);
    MulMonotonic(q, 1, y);
    if y > 1 && x > 0 && q >= x {
      MulMonotonic(q, 2, y);
      assert false;
    }
  }

  /** The quotient times the divisor never overshoots the dividend and falls short by less than one divisor. */
  lemma TruncDivRoundsTowardZero(a: int, b: int)
    requires b != 0
    ensures Abs(TruncDiv(a, b)) * Abs(b) <= Abs(a) < Abs(TruncDiv(a, b)) * Abs(b) + Abs(b)
  {
    var A, B := Abs(a), Abs(b);
    var m := A / B;
    DivBounds(A, B);
    assert Abs(TruncDiv(a, b)) == m;
    assert m * B <= A < m * B + B;
  }

  /** A non-zero quotient is positive exactly when dividend and divisor have the same sign. */
  lemma TruncDivSign(a: int, b: int)
    requires b != 0
    ensures TruncDiv(a, b) > 0 ==> (a > 0) == (b > 0)
    ensures TruncDiv(a, b) < 0 ==> (a > 0) != (b > 0)
  {
    var m := Abs(a) / Abs(b);
    assert a == 0 ==> m == 0;
    assert TruncDiv(a, b) == if (a < 0) == (b < 0) then m else -m;
  }

  /** Truncation and Euclidean division differ on a negative dividend. */
  lemma TruncDivDiffersFromEuclidean()
    ensures TruncDiv(-1, 2) == 0 && -1 / 2 == -1
  {
  }

  datatype ArithmeticFault = DivideByZero | Overflow

  /**
   * C# `a / b` on two ints: DivideByZeroException when `b` is zero,
   * OverflowException for `int.MinValue / -1`, the truncated quotient otherwise.
   */
  function Divide(a: int32, b: int32): (r: Result<int32, ArithmeticFault>)
    ensures r == Failure(DivideByZero) <==> b == 0
    ensures r == Failure(Overflow) <==> b == -1 && a == MinValue
    ensures r.Success? ==> Abs(r.value) * Abs(b) <= Abs(a) < Abs(r.value) * Abs(b) + Abs(b)
    ensures r.Success? && a >= 0 && b > 0 ==> r.value == a / b
    ensures r.Success? ==> r.value == TruncDiv(a, b)
    ensures r.Success? && r.value != 0 ==> (r.value > 0 <==> (a > 0) == (b > 0))
  {
    if b == 0 then Failure(DivideByZero)
    else if b == -1 && a == MinValue then Failure(Overflow)
    else
      QuotientFits(a, b);
      TruncDivRoundsTowardZero(a, b);
      TruncDivSign(a, b);
      Success(TruncDiv(a, b))
  }

  /** Except for `int.MinValue / -1`, the quotient of two int32 values is an int32. */
  lemma QuotientFits(a: int32, b: int32)
    requires b != 0 && !(b == -1 && a == MinValue)
    ensures InRange(TruncDiv(a, b))
  {
    var A, B := Abs(a), Abs(b);
    var m := A / B;
    assert TruncDiv(a, b) == if (a < 0) == (b < 0) then m else -m;
    assert InRange(a);
    assert A <= Modulus / 2;
    DivShrinks(A, B);
    if m == Modulus / 2 {
      assert B == 1 && a == MinValue && b == 1;
    }
  }
}
