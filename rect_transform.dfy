/** `RectangleTransform`: a region of texture space (everything scaled to
    0..1, Top above Bottom) with the offset and scale that move it. Bounds
    tests round every value to `Precision` decimals first. */
module RectTransforms {
  import opened Rects

  const Precision := 6
  const Scale6: real := 1000000.0

  datatype RectangleTransform = RectangleTransform(
    left: real, right: real, top: real, bottom: real,
    offsetX: real, offsetY: real, scaleX: real, scaleY: real)

  /** Round half to even, the default of `Math.Round`. */
  function RoundHalfEven(z: real): (n: int)
    ensures z - 0.5 <= n as real <= z + 0.5
  {
    var f := z.Floor;
    var frac := z - f as real;
    if frac < 0.5 then f
    else if frac > 0.5 then f + 1
    else if f % 2 == 0 then f else f + 1
  }

  lemma {:induction false} RoundHalfEvenMonotone(a: real, b: real)
    requires a <= b
    ensures RoundHalfEven(a) <= RoundHalfEven(b)
  {
    var fa, fb := a.Floor, b.Floor;
    assert fa <= fb;
    if fa < fb {
      assert RoundHalfEven(a) <= fa + 1 <= fb <= RoundHalfEven(b);
    }
  }

  lemma {:induction false} RoundHalfEvenOfInt(n: int)
    ensures RoundHalfEven(n as real) == n
  {
    assert (n as real).Floor == n;
  }

  /** `Math.Round(v, 6)`, computed exactly over the reals. */
  function Round6(v: real): real
  {
    RoundHalfEven(v * Scale6) as real / Scale6
  }

  /** Rounding moves a value by at most half a unit in the sixth decimal. */
  lemma {:induction false} Round6Close(v: real)
    ensures v - 0.0000005 <= Round6(v) <= v + 0.0000005
  {
    var n := RoundHalfEven(v * Scale6);
    assert v * Scale6 - 0.5 <= n as real <= v * Scale6 + 0.5;
  }

  lemma {:induction false} Round6Monotone(a: real, b: real)
    requires a <= b
    ensures Round6(a) <= Round6(b)
  {
    RoundHalfEvenMonotone(a * Scale6, b * Scale6);
  }

  /** Rounding an already rounded value changes nothing. */
  lemma {:induction false} Round6Idempotent(v: real)
    ensures Round6(Round6(v)) == Round6(v)
  {
    var n := RoundHalfEven(v * Scale6);
    assert Round6(v) * Scale6 == n as real;
    RoundHalfEvenOfInt(n);
  }

  /** `ContainsPoint`: inclusive on all four bounds, after rounding. */
  predicate ContainsPoint(t: RectangleTransform, x: real, y: real)
  {
    Round6(x) >= Round6(t.left) && Round6(x) <= Round6(t.right)
    && Round6(y) >= Round6(t.bottom) && Round6(y) <= Round6(t.top)
  }

  /** Every point of the closed rectangle is contained. */
  lemma {:induction false} ContainsPointComplete(t: RectangleTransform, x: real, y: real)
    requires t.left <= x <= t.right && t.bottom <= y <= t.top
    ensures ContainsPoint(t, x, y)
  {
    Round6Monotone(t.left, x);
    Round6Monotone(x, t.right);
    Round6Monotone(t.bottom, y);
    Round6Monotone(y, t.top);
  }

  /** A contained point lies within one unit of the sixth decimal of the
      rectangle. */
  lemma {:induction false} ContainsPointSound(t: RectangleTransform, x: real, y: real)
    requires ContainsPoint(t, x, y)
    ensures t.left - 0.000001 <= x <= t.right + 0.000001
    ensures t.bottom - 0.000001 <= y <= t.top + 0.000001
  {
    Round6Close(x);
    Round6Close(y);
    Round6Close(t.left);
    Round6Close(t.right);
    Round6Close(t.bottom);
    Round6Close(t.top);
  }

  /** Points that agree to six decimals get the same answer. */
  lemma {:induction false} ContainsPointRounded(t: RectangleTransform, x: real, y: real)
    ensures ContainsPoint(t, Round6(x), Round6(y)) == ContainsPoint(t, x, y)
  {
    Round6Idempotent(x);
    Round6Idempotent(y);
  }

  /** A transform whose rounded bounds are crossed contains no point. */
  lemma {:induction false} CrossedBoundsContainNothing(t: RectangleTransform, x: real, y: real)
    requires Round6(t.left) > Round6(t.right) || Round6(t.bottom) > Round6(t.top)
    ensures !ContainsPoint(t, x, y)
  {
  }

  /** Crossed bounds that round to the same value still contain a point:
      Left > Right alone does not make a transform empty. */
  lemma {:induction false} CrossedBoundsMayContain()
    ensures var t := RectangleTransform(0.5000001, 0.5, 1.0, 0.0, 0.0, 0.0, 1.0, 1.0);
      t.left > t.right && ContainsPoint(t, 0.5, 0.5)
  {
    assert RoundHalfEven(500000.1) == 500000 by {
      assert (500000.1).Floor == 500000;
    }
    assert RoundHalfEven(500000.0) == 500000 by {
      RoundHalfEvenOfInt(500000);
    }
    assert RoundHalfEven(1000000.0) == 1000000 by {
      RoundHalfEvenOfInt(1000000);
    }
    assert RoundHalfEven(0.0) == 0 by {
      RoundHalfEvenOfInt(0);
    }
  }

  /** `ToRectangle`: the pixel rectangle of a texture of the given size, each
      product truncated toward zero. */
  function ToRectangle(t: RectangleTransform, width: int, height: int): Rect
  {
    Rect(Trunc(t.left * width as real), Trunc(t.top * height as real),
         Trunc((t.right - t.left) * width as real), Trunc((t.bottom - t.top) * height as real))
  }

  /** The pixel height is never positive when Top lies below Bottom in pixel
      order (Top > Bottom), and it is negative once the gap covers a pixel. */
  lemma {:induction false} ToRectangleHeightSign(t: RectangleTransform, width: int, height: int)
    requires height > 0 && t.top > t.bottom
    ensures ToRectangle(t, width, height).height <= 0
    ensures (t.top - t.bottom) * height as real >= 1.0 ==> ToRectangle(t, width, height).height < 0
  {
    var d := (t.bottom - t.top) * height as real;
    assert d == -((t.top - t.bottom) * height as real);
    assert d < 0.0;
  }

  /** With Left <= Right the pixel width is between the product minus one
      and the product. */
  lemma {:induction false} ToRectangleWidth(t: RectangleTransform, width: int, height: int)
    requires width >= 0 && t.left <= t.right
    ensures var w := (t.right - t.left) * width as real;
      0 <= ToRectangle(t, width, height).width && w - 1.0 < ToRectangle(t, width, height).width as real <= w
  {
    var d := t.right - t.left;
    var w := d * width as real;
    NonNegativeProduct(d, width as real);
    assert ToRectangle(t, width, height).width == Trunc(w);
  }

  lemma {:induction false} NonNegativeProduct(a: real, b: real)
    requires a >= 0.0 && b >= 0.0
    ensures a * b >= 0.0
  {
  }
}
