/** The `Rect` value type: four int32 edges, built from an origin and a size. */
module Rects {
  import opened Wrappers
  import opened Int32
  import Decimal

  datatype Rect = Rect(left: int32, top: int32, right: int32, bottom: int32)

  /** Any value a C# `object?` may hold, as far as `Rect.Equals(object?)` can tell them apart. */
  datatype Object = Null | BoxedRect(rect: Rect) | OtherObject(typeName: string)

  /** `new Rect(left, top, width, height)`: right and bottom are unchecked int sums. */
  function New(left: int32, top: int32, width: int32, height: int32): (r: Rect)
    ensures r.left == left && r.top == top
    ensures (r.right - (left + width)) % Modulus == 0 && (r.bottom - (top + height)) % Modulus == 0
    ensures InRange(left + width) ==> r.right == left + width
    ensures InRange(top + height) ==> r.bottom == top + height
  {
    Rect(left, top, Wrap(left + width), Wrap(top + height))
  }

  /** Building a rect from its own left/top and unchecked width/height gives back its right and bottom, overflow or not. */
  lemma NewFromEdgesRoundTrip(left: int32, top: int32, right: int32, bottom: int32)
    ensures New(left, top, Wrap(right - left), Wrap(bottom - top)) == Rect(left, top, right, bottom)
  {
    var w, h := Wrap(right - left), Wrap(bottom - top);
    WrapCongruent(left + w, right);
    WrapCongruent(top + h, bottom);
  }

  /** Right minus left, computed unchecked, recovers the width the rect was built with. */
  lemma WidthAndHeightRecovered(left: int32, top: int32, width: int32, height: int32)
    ensures Wrap(New(left, top, width, height).right - left) == width
    ensures Wrap(New(left, top, width, height).bottom - top) == height
  {
    var r := New(left, top, width, height);
    WrapCongruent(r.right - left, width);
    WrapCongruent(r.bottom - top, height);
  }

  /** `Equals(Rect other)`: all four edges agree. */
  predicate Equals(a: Rect, b: Rect)
    ensures Equals(a, b) <==> a == b
  {
    a.left == b.left && a.top == b.top && a.right == b.right && a.bottom == b.bottom
  }

  lemma EqualsIsEquivalence(a: Rect, b: Rect, c: Rect)
    ensures Equals(a, a)
    ensures Equals(a, b) ==> Equals(b, a)
    ensures Equals(a, b) && Equals(b, c) ==> Equals(a, c)
  {
  }

  /** `Equals(object? obj)`: only a boxed rect with the same edges is equal. */
  predicate EqualsObject(a: Rect, obj: Object)
    ensures EqualsObject(a, obj) <==> obj == BoxedRect(a)
  {
    obj.BoxedRect? && Equals(a, obj.rect)
  }

  /** `operator ==`. */
  predicate OpEquality(a: Rect, b: Rect)
    ensures OpEquality(a, b) <==> Equals(a, b)
    ensures OpEquality(a, b) <==> EqualsObject(a, BoxedRect(b))
  {
    Equals(a, b)
  }

  /** `operator !=`. */
  predicate OpInequality(a: Rect, b: Rect)
    ensures OpInequality(a, b) <==> !OpEquality(a, b)
  {
    !Equals(a, b)
  }

  /** `GetHashCode()`: `HashCode.Combine` is process-seeded and unknown, so it is a parameter. */
  function GetHashCode(r: Rect, combine: (int32, int32, int32, int32) -> int32): int32 {
    combine(r.left, r.top, r.right, r.bottom)
  }

  /** Rects that are equal hash alike under every combining function. */
  lemma EqualRectsHashAlike(a: Rect, b: Rect, combine: (int32, int32, int32, int32) -> int32)
    requires Equals(a, b)
    ensures GetHashCode(a, combine) == GetHashCode(b, combine)
  {
  }

  /** `ToString()`: "Left,Top,Right,Bottom" in decimal. */
  function ToString(r: Rect): string {
    Decimal.IntToString(r.left) + "," + Decimal.IntToString(r.top) + ","
      + Decimal.IntToString(r.right) + "," + Decimal.IntToString(r.bottom)
  }

  /** Reads back a rect from text of the shape ToString produces. */
  function Parse(s: string): Option<Rect> {
    var parts := Decimal.Split(s, ',');
    if |parts| != 4 then None
    else
      match (Decimal.ParseInt(parts[0]), Decimal.ParseInt(parts[1]),
             Decimal.ParseInt(parts[2]), Decimal.ParseInt(parts[3]))
      case (Some(l), Some(t), Some(r), Some(b)) =>
        if InRange(l) && InRange(t) && InRange(r) && InRange(b) then Some(Rect(l, t, r, b)) else None
      case _ => None
  }

  lemma NoCommaInNumber(x: int)
    ensures ',' !in Decimal.IntToString(x)
  {
  }

  /** ToString loses nothing: its text names the four edges in order. */
  lemma ParseOfToString(r: Rect)
    ensures Parse(ToString(r)) == Some(r)
  {
    var a, b, c, d := Decimal.IntToString(r.left), Decimal.IntToString(r.top),
                      Decimal.IntToString(r.right), Decimal.IntToString(r.bottom);
    NoCommaInNumber(r.left);
    NoCommaInNumber(r.top);
    NoCommaInNumber(r.right);
    assert ToString(r) == a + [','] + (b + [','] + (c + [','] + d));
    Decimal.SplitAtFirstSeparator(a, ',', b + [','] + (c + [','] + d));
    Decimal.SplitAtFirstSeparator(b, ',', c + [','] + d);
    NoCommaInNumber(r.bottom);
    Decimal.SplitAtFirstSeparator(c, ',', d);
    Decimal.SplitWithoutSeparator(d, ',');
    assert Decimal.Split(ToString(r), ',') == [a, b, c, d];
    Decimal.ParseIntOfIntToString(r.left);
    Decimal.ParseIntOfIntToString(r.top);
    Decimal.ParseIntOfIntToString(r.right);
    Decimal.ParseIntOfIntToString(r.bottom);
  }
}
