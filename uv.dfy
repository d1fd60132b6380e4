/** PyriteLib's `TextureVertex`: a UV coordinate that remembers the
    coordinates it was loaded with, its 1-based index in the UV list, and
    whether a transform has already been applied to it.

    `Uv` is the vertex as a value, as the mesh's UV list holds it;
    `TextureVertex` is the class, proved against the functions on `Uv`. */
module Uvs {
  import opened Wrappers
  import opened RectTransforms
  import Text

  const MinimumDataLength := 3
  const NearTolerance: real := 0.00001

  datatype Uv = Uv(x: real, y: real, originalX: real, originalY: real, index: int, transformed: bool)

  /** `LoadFromStringArray`: at least three tokens, the prefix `vt` in any
      case, and two decimal coordinates that become both the current and the
      original coordinates. The index is set by the loader afterwards. */
  function ParseUv(data: seq<string>): (r: Result<Uv>)
    ensures r.Success? <==> (|data| >= MinimumDataLength && Text.Lower(data[0]) == "vt"
      && Text.ParseDecimal(data[1]).Some? && Text.ParseDecimal(data[2]).Some?)
    ensures r.Success? ==> (r.value.x == r.value.originalX == Text.ParseDecimal(data[1]).value
      && r.value.y == r.value.originalY == Text.ParseDecimal(data[2]).value && !r.value.transformed)
  {
    if |data| < MinimumDataLength then Failure("ArgumentException: Input array must be of minimum length 3")
    else if Text.Lower(data[0]) != "vt" then Failure("ArgumentException: Data prefix must be 'vt'")
    else match Text.ParseDecimal(data[1])
      case None => Failure("ArgumentException: Could not parse X parameter as double")
      case Some(x) =>
        match Text.ParseDecimal(data[2])
        case None => Failure("ArgumentException: Could not parse Y parameter as double")
        case Some(y) => Success(Uv(x, y, x, y, 0, false))
  }

  /** `InRectangleTransform`: decided by the ORIGINAL coordinates. */
  predicate InRectangleTransform(u: Uv, t: RectangleTransform)
  {
    ContainsPoint(t, u.originalX, u.originalY)
  }

  /** `Transform`, written as the source's in-place steps; a vertex already
      transformed is left alone. */
  function TransformUv(u: Uv, t: RectangleTransform): Uv
  {
    if u.transformed then u
    else
      var x1 := u.x + ((u.x - t.left) * t.scaleX - (u.x - t.left));
      var y1 := u.y + ((u.y - t.top) * t.scaleY - (u.y - t.top));
      u.(x := x1 - t.offsetX, y := y1 + t.offsetY, transformed := true)
  }

  /** The steps amount to scaling about (Left, Top) and shifting by the
      offset, and they keep the original coordinates and the index. */
  lemma {:induction false} TransformUvFormula(u: Uv, t: RectangleTransform)
    requires !u.transformed
    ensures var r := TransformUv(u, t);
      r.x == t.left + (u.x - t.left) * t.scaleX - t.offsetX
      && r.y == t.top + (u.y - t.top) * t.scaleY + t.offsetY
      && r.transformed && r.originalX == u.originalX && r.originalY == u.originalY && r.index == u.index
  {
  }

  /** Transforming twice, even with another transform, is transforming once. */
  lemma {:induction false} TransformUvOnce(u: Uv, t1: RectangleTransform, t2: RectangleTransform)
    ensures TransformUv(TransformUv(u, t1), t2) == TransformUv(u, t1)
  {
  }

  /** Membership in a transform's rectangle does not change when the vertex
      is transformed. */
  lemma {:induction false} TransformKeepsMembership(u: Uv, t: RectangleTransform, s: RectangleTransform)
    ensures InRectangleTransform(TransformUv(u, t), s) == InRectangleTransform(u, s)
  {
  }

  /** The entry `CloneOriginal` appends: the original coordinates as both
      current and original, untransformed, at the given index. */
  function Clone(u: Uv, index: int): (r: Uv)
    ensures r.x == r.originalX == u.originalX && r.y == r.originalY == u.originalY
    ensures r.index == index && !r.transformed
  {
    Uv(u.originalX, u.originalY, u.originalX, u.originalY, index, false)
  }

  /** `CloneOriginal` on the list as a value: appends the clone with index
      `count + 1` and returns that index. */
  function CloneOriginalInto(u: Uv, list: seq<Uv>): (r: (seq<Uv>, int))
    ensures r.1 == |list| + 1
    ensures |r.0| == |list| + 1 && r.0[..|list|] == list && r.0[|list|] == Clone(u, |list| + 1)
  {
    (list + [Clone(u, |list| + 1)], |list| + 1)
  }

  /** A clone of an already transformed vertex transforms from the original
      coordinates, exactly as the vertex itself did. */
  lemma {:induction false} CloneTransformsLikeOriginal(u: Uv, t: RectangleTransform, s: RectangleTransform, k: int)
    requires !u.transformed && u.x == u.originalX && u.y == u.originalY
    ensures var c := TransformUv(Clone(TransformUv(u, t), k), s);
      c.x == TransformUv(u, s).x && c.y == TransformUv(u, s).y && c.transformed
  {
  }

  /** `Near`: within the tolerance on both axes, by the current or by the
      original coordinates. */
  predicate Near(u: Uv, x: real, y: real)
  {
    (Abs(u.x - x) < NearTolerance && Abs(u.y - y) < NearTolerance)
    || (Abs(u.originalX - x) < NearTolerance && Abs(u.originalY - y) < NearTolerance)
  }

  function Abs(r: real): real { if r < 0.0 then -r else r }

  /** A vertex is near its own current and its own original coordinates, and
      a vertex near a point is near it by one of the two pairs within the
      tolerance on each axis. */
  lemma {:induction false} NearProperties(u: Uv, x: real, y: real)
    ensures Near(u, u.x, u.y) && Near(u, u.originalX, u.originalY)
    ensures Near(u, x, y) ==>
      (u.x - NearTolerance < x < u.x + NearTolerance && u.y - NearTolerance < y < u.y + NearTolerance)
      || (u.originalX - NearTolerance < x < u.originalX + NearTolerance
          && u.originalY - NearTolerance < y < u.originalY + NearTolerance)
  {
  }

  /** `ToString`: "vt X Y", with the number formatting left as a parameter. */
  function UvToString(u: Uv, format: real -> string): string
  {
    Text.Join(["vt", format(u.x), format(u.y)], ' ')
  }

  /** The line splits back into the prefix and the two formatted numbers. */
  lemma {:induction false} UvToStringTokens(u: Uv, format: real -> string)
    requires format(u.x) != [] && ' ' !in format(u.x)
    requires format(u.y) != [] && ' ' !in format(u.y)
    ensures Text.Tokens(UvToString(u, format)) == ["vt", format(u.x), format(u.y)]
  {
    Text.TokensOfJoin(["vt", format(u.x), format(u.y)]);
  }

  /** The shared UV list `CloneOriginal` appends to. */
  class TextureVertexList {
    var items: seq<Uv>

    constructor (items: seq<Uv>)
      ensures this.items == items
    {
      this.items := items;
    }
  }

  class TextureVertex {
    var x: real
    var y: real
    var originalX: real
    var originalY: real
    var index: int
    var transformed: bool

    function Rec(): Uv
      reads this
    {
      Uv(x, y, originalX, originalY, index, transformed)
    }

    constructor ()
      ensures Rec() == Uv(0.0, 0.0, 0.0, 0.0, 0, false)
    {
      x, y, originalX, originalY, index, transformed := 0.0, 0.0, 0.0, 0.0, 0, false;
    }

    /** `LoadFromStringArray`: the current and original coordinates from the
        record; on a failure nothing is assigned. */
    method LoadFromStringArray(data: seq<string>) returns (outcome: Outcome)
      modifies this
      ensures outcome.Pass? <==> ParseUv(data).Success?
      ensures outcome.Pass? ==> Rec() == ParseUv(data).value.(index := old(index), transformed := old(transformed))
      ensures outcome.Fail? ==> Rec() == old(Rec())
    {
      if |data| < MinimumDataLength {
        return Fail("ArgumentException: Input array must be of minimum length 3");
      }
      if Text.Lower(data[0]) != "vt" {
        return Fail("ArgumentException: Data prefix must be 'vt'");
      }
      var px := Text.ParseDecimal(data[1]);
      if px.None? {
        return Fail("ArgumentException: Could not parse X parameter as double");
      }
      var py := Text.ParseDecimal(data[2]);
      if py.None? {
        return Fail("ArgumentException: Could not parse Y parameter as double");
      }
      originalX := px.value;
      x := originalX;
      originalY := py.value;
      y := originalY;
      outcome := Pass;
    }

    /** `Transform`: does nothing once `Transformed` is set. */
    method Transform(t: RectangleTransform)
      modifies this
      ensures Rec() == TransformUv(old(Rec()), t)
    {
      if transformed {
        return;
      }
      x := x + ((x - t.left) * t.scaleX - (x - t.left));
      y := y + ((y - t.top) * t.scaleY - (y - t.top));
      x := x - t.offsetX;
      y := y + t.offsetY;
      transformed := true;
    }

    /** `CloneOriginal`: appends an untransformed copy of the original
        coordinates to the shared list and returns its 1-based index. */
    method CloneOriginal(list: TextureVertexList) returns (newIndex: int)
      modifies list
      ensures (list.items, newIndex) == CloneOriginalInto(Rec(), old(list.items))
    {
      newIndex := |list.items| + 1;
      list.items := list.items + [Uv(originalX, originalY, originalX, originalY, newIndex, false)];
    }
  }
}
