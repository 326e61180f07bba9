/** The synthetic absolute mouse move at the current cursor position. */
module MouseMovement {
  import opened Wrappers
  import opened Int32
  import opened WindowManager

  /** Absolute coordinates run from 0 to this value across the primary screen. */
  const NormalizedMax: int := 65535

  /** The largest coordinate whose product with 65535 still fits an int. */
  const LargestExactCoordinate: int := 32768

  /** One axis: `(coordinate * 65535) / dimension`, the product wrapping and the quotient truncating as C# int arithmetic does. */
  function Normalize(coordinate: int32, dimension: int32): (r: Result<int32, ArithmeticFault>)
    ensures r == Failure(DivideByZero) <==> dimension == 0
    ensures r == Failure(Overflow) <==> dimension == -1 && Wrap(coordinate * NormalizedMax) == MinValue
    ensures r.Success? ==> r.value == TruncDiv(Wrap(coordinate * NormalizedMax), dimension)
  {
    Divide(Wrap(coordinate * NormalizedMax), dimension)
  }

  lemma ProductBelow(x: int, w: int)
    requires 0 <= x < w
    ensures x * NormalizedMax < w * NormalizedMax
  {
  }

  lemma QuotientBelow(p: nat, w: nat)
    requires 0 < w && p < w * NormalizedMax
    ensures p / w < NormalizedMax
  {
    DivBounds(p, w);
  }

  /**
   * A cursor on the screen lands in 0..65534, at exactly `x * 65535 / w`,
   * as long as the product does not overflow.
   */
  lemma NormalizeOnScreen(x: int32, w: int32)
    requires 0 <= x < w && x <= LargestExactCoordinate
    ensures Normalize(x, w).Success?
    ensures 0 <= Normalize(x, w).value <= NormalizedMax - 1
    ensures Normalize(x, w).value == x * NormalizedMax / w
  {
    var p := x * NormalizedMax;
    assert 0 <= p <= LargestExactCoordinate * NormalizedMax by {
      MulMonotonic(NormalizedMax, x as nat, LargestExactCoordinate);
    }
    assert Normalize(x, w) == Divide(p, w);
    assert Divide(p, w) == Success(p / w);
    assert p / w < NormalizedMax by {
      ProductBelow(x, w);
      QuotientBelow(p, w);
    }
  }

  /**
   * A cursor left of or above the primary screen by less than its size lands
   * in -65534..0: the quotient is truncated toward zero, not floored.
   */
  lemma NormalizeBeforeScreen(x: int32, w: int32)
    requires -LargestExactCoordinate <= x < 0 && -x < w
    ensures Normalize(x, w).Success?
    ensures -NormalizedMax < Normalize(x, w).value <= 0
    ensures Normalize(x, w).value == -((-x) * NormalizedMax / w)
  {
    var p := x * NormalizedMax;
    var q := (-x) * NormalizedMax;
    assert 0 < q <= LargestExactCoordinate * NormalizedMax by {
      MulMonotonic(NormalizedMax, -x, LargestExactCoordinate);
    }
    assert p == -q;
    assert Normalize(x, w) == Divide(p, w);
    assert Divide(p, w) == Success(-(q / w));
    assert q / w < NormalizedMax by {
      ProductBelow(-x, w);
      QuotientBelow(q, w);
    }
  }

  /** Past 32768 pixels the product wraps and the coordinate comes out negative. */
  lemma NormalizeOverflowsPast32768()
    ensures Normalize(32769, 32770) == Success(-65531)
  {
    assert Wrap(32769 * NormalizedMax) == -2147450881;
    assert TruncDiv(-2147450881, 32770) == -65531;
  }

  /**
   * `GetMouseMovement`: one mouse INPUT with MOVE | ABSOLUTE and both axes
   * normalised; the width is divided by first, so a zero width throws before
   * the height is looked at.
   */
  function GetMouseMovement(cursor: Point, screenWidth: int32, screenHeight: int32): (r: Result<Input, ArithmeticFault>)
    ensures r.Success? ==> r.value.inputType == InputMouse && r.value.mi.dwFlags == 0x8001
    ensures r.Success? ==> Normalize(cursor.x, screenWidth) == Success(r.value.mi.dx)
    ensures r.Success? ==> Normalize(cursor.y, screenHeight) == Success(r.value.mi.dy)
    ensures r.Success? ==> r.value.mi.mouseData == 0 && r.value.mi.time == 0 && r.value.mi.dwExtraInfo == 0
    ensures r.Failure? <==> Normalize(cursor.x, screenWidth).Failure? || Normalize(cursor.y, screenHeight).Failure?
    ensures screenWidth == 0 ==> r == Failure(DivideByZero)
  {
    match Normalize(cursor.x, screenWidth)
    case Failure(f) => Failure(f)
    case Success(dx) =>
      match Normalize(cursor.y, screenHeight)
      case Failure(f) => Failure(f)
      case Success(dy) => Success(Input(InputMouse, MouseInput(dx, dy, 0, MOVE | ABSOLUTE, 0, 0)))
  }

  /** A cursor on a screen of at most 32769 pixels each way always yields a move inside the absolute range. */
  lemma MovementOnScreen(cursor: Point, screenWidth: int32, screenHeight: int32)
    requires 0 <= cursor.x < screenWidth <= LargestExactCoordinate + 1
    requires 0 <= cursor.y < screenHeight <= LargestExactCoordinate + 1
    ensures GetMouseMovement(cursor, screenWidth, screenHeight).Success?
    ensures var mi := GetMouseMovement(cursor, screenWidth, screenHeight).value.mi;
      0 <= mi.dx < NormalizedMax && 0 <= mi.dy < NormalizedMax
  {
    NormalizeOnScreen(cursor.x, screenWidth);
    NormalizeOnScreen(cursor.y, screenHeight);
  }
}
