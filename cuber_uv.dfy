/** CuberLib's `TextureVertex`: a UV coordinate without memory of where it
    started. Its `Transform` only shifts by the offset and has no guard, so
    every application shifts again. */
module CuberUvs {
  import opened Wrappers
  import opened RectTransforms
  import Text

  const MinimumDataLength := 3

  datatype CuberUv = CuberUv(x: real, y: real, index: int)

  /** `LoadFromStringArray`: at least three tokens, the prefix `vt` in any
      case, then two decimal coordinates. */
  function ParseCuberUv(data: seq<string>): (r: Result<CuberUv>)
    ensures r.Success? <==> (|data| >= MinimumDataLength && Text.Lower(data[0]) == "vt"
      && Text.ParseDecimal(data[1]).Some? && Text.ParseDecimal(data[2]).Some?)
    ensures r.Success? ==> (r.value.x == Text.ParseDecimal(data[1]).value
      && r.value.y == Text.ParseDecimal(data[2]).value)
  {
    if |data| < MinimumDataLength then Failure("ArgumentException: Input array must be of minimum length 3")
    else if Text.Lower(data[0]) != "vt" then Failure("ArgumentException: Data prefix must be 'vt'")
    else match Text.ParseDecimal(data[1])
      case None => Failure("ArgumentException: Could not parse X parameter as double")
      case Some(x) =>
        match Text.ParseDecimal(data[2])
        case None => Failure("ArgumentException: Could not parse Y parameter as double")
        case Some(y) => Success(CuberUv(x, y, 0))
  }

  /** `InRectangleTransform`: decided by the CURRENT coordinates. */
  predicate InRectangleTransform(u: CuberUv, t: RectangleTransform)
  {
    ContainsPoint(t, u.x, u.y)
  }

  /** `Transform`, as written: Y goes through the flipped axis and back. */
  function CuberTransform(u: CuberUv, t: RectangleTransform): CuberUv
  {
    u.(x := u.x + t.offsetX, y := 1.0 - (1.0 - u.y + t.offsetY))
  }

  /** The flip cancels: the transform is a shift by (OffsetX, -OffsetY). */
  lemma {:induction false} CuberTransformIsShift(u: CuberUv, t: RectangleTransform)
    ensures CuberTransform(u, t) == CuberUv(u.x + t.offsetX, u.y - t.offsetY, u.index)
  {
  }

  /** Applying `n` times. */
  function Repeat(u: CuberUv, t: RectangleTransform, n: nat): CuberUv
    decreases n
  {
    if n == 0 then u else CuberTransform(Repeat(u, t, n - 1), t)
  }

  /** With no "already transformed" guard, n applications shift n times. */
  lemma {:induction false} RepeatShifts(u: CuberUv, t: RectangleTransform, n: nat)
    ensures Repeat(u, t, n) == CuberUv(u.x + n as real * t.offsetX, u.y - n as real * t.offsetY, u.index)
    decreases n
  {
    if n > 0 {
      RepeatShifts(u, t, n - 1);
      CuberTransformIsShift(Repeat(u, t, n - 1), t);
    }
  }

  /** `ToString`: "vt X Y", with the number formatting left as a parameter. */
  function CuberUvToString(u: CuberUv, format: real -> string): string
  {
    Text.Join(["vt", format(u.x), format(u.y)], ' ')
  }

  class CuberTextureVertex {
    var x: real
    var y: real
    var index: int

    function Rec(): CuberUv
      reads this
    {
      CuberUv(x, y, index)
    }

    constructor ()
      ensures Rec() == CuberUv(0.0, 0.0, 0)
    {
      x, y, index := 0.0, 0.0, 0;
    }

    /** `LoadFromStringArray`; on a failure nothing is assigned. */
    method LoadFromStringArray(data: seq<string>) returns (outcome: Outcome)
      modifies this
      ensures outcome.Pass? <==> ParseCuberUv(data).Success?
      ensures outcome.Pass? ==> Rec() == ParseCuberUv(data).value.(index := old(index))
      ensures outcome.Fail? ==> Rec() == old(Rec())
    {
      if |data| < MinimumDataLength {
        return Fail("ArgumentException: Input array must be of minimum length 3");
      }
      if Text.Lower(data[0]) != "vt" {
        return Fail("ArgumentException: Data prefix must be 'vt'");
      }
      var px := Text.ParseDecimal(data[1]);
      if px.None? {
        return Fail("ArgumentException: Could not parse X parameter as double");
      }
      var py := Text.ParseDecimal(data[2]);
      if py.None? {
        return Fail("ArgumentException: Could not parse Y parameter as double");
      }
      x := px.value;
      y := py.value;
      outcome := Pass;
    }

    /** `Transform`: shifts every time it is called. */
    method Transform(t: RectangleTransform)
      modifies this
      ensures Rec() == CuberTransform(old(Rec()), t)
    {
      x := x + t.offsetX;
      y := 1.0 - (1.0 - y + t.offsetY);
    }
  }
}
