/** `Extent`: an axis-aligned box with derived sizes, corners and edges. */
module Extents {
  import opened Vectors

  datatype Extent = Extent(xMin: real, xMax: real, yMin: real, yMax: real, zMin: real, zMax: real)
  {
    function XSize(): real { xMax - xMin }
    function YSize(): real { yMax - yMin }
    function ZSize(): real { zMax - zMin }
    function MinCorner(): Vector3D { Vector3D(xMin, yMin, zMin) }
    function MaxCorner(): Vector3D { Vector3D(xMax, yMax, zMax) }
  }

  /** `LineSegment` as far as `Edges` uses it: two end points. */
  datatype LineSegment = LineSegment(start: Vector3D, end: Vector3D)

  /** A corner named by which axes take their maximum. */
  datatype CornerCode = CornerCode(hx: bool, hy: bool, hz: bool)

  function Corner(e: Extent, c: CornerCode): Vector3D
  {
    Vector3D(if c.hx then e.xMax else e.xMin, if c.hy then e.yMax else e.yMin, if c.hz then e.zMax else e.zMin)
  }

  const C1 := CornerCode(true, true, true)
  const C2 := CornerCode(true, true, false)
  const C3 := CornerCode(true, false, true)
  const C4 := CornerCode(false, true, true)
  const C5 := CornerCode(true, false, false)
  const C6 := CornerCode(false, false, true)
  const C7 := CornerCode(false, true, false)
  const C8 := CornerCode(false, false, false)

  /** The corners each edge joins, in the source's order and orientation. */
  const EdgeCodes: seq<(CornerCode, CornerCode)> :=
    [ (C1, C2), (C1, C3), (C1, C4),
      (C6, C3), (C6, C4), (C6, C8),
      (C5, C3), (C5, C2), (C5, C8),
      (C7, C4), (C7, C2), (C7, C8) ]

  function Edges(e: Extent): (r: seq<LineSegment>)
    ensures |r| == 12
  {
    seq(12, k requires 0 <= k < 12 => LineSegment(Corner(e, EdgeCodes[k].0), Corner(e, EdgeCodes[k].1)))
  }

  predicate NonDegenerate(e: Extent) { e.xMin < e.xMax && e.yMin < e.yMax && e.zMin < e.zMax }

  predicate IsCorner(e: Extent, p: Vector3D)
  {
    (p.x == e.xMin || p.x == e.xMax) && (p.y == e.yMin || p.y == e.yMax) && (p.z == e.zMin || p.z == e.zMax)
  }

  function DiffCount(p: Vector3D, q: Vector3D): nat
  {
    (if p.x != q.x then 1 else 0) + (if p.y != q.y then 1 else 0) + (if p.z != q.z then 1 else 0)
  }

  function CodeDiff(a: CornerCode, b: CornerCode): nat
  {
    (if a.hx != b.hx then 1 else 0) + (if a.hy != b.hy then 1 else 0) + (if a.hz != b.hz then 1 else 0)
  }

  /** Two segments with the same end points, in either orientation. */
  predicate SameSegment(a: LineSegment, b: LineSegment)
  {
    (a.start == b.start && a.end == b.end) || (a.start == b.end && a.end == b.start)
  }

  predicate SameCodes(a: (CornerCode, CornerCode), b: (CornerCode, CornerCode))
  {
    (a.0 == b.0 && a.1 == b.1) || (a.0 == b.1 && a.1 == b.0)
  }

  /** On a box with positive size on every axis distinct codes name distinct
      corners, and corners differ in as many coordinates as their codes. */
  lemma {:induction false} CornerInjective(e: Extent, a: CornerCode, b: CornerCode)
    requires NonDegenerate(e)
    ensures (Corner(e, a) == Corner(e, b)) == (a == b)
    ensures DiffCount(Corner(e, a), Corner(e, b)) == CodeDiff(a, b)
  {
  }

  /** Every edge joins two corners that differ in exactly one coordinate. */
  lemma {:induction false} EdgesJoinAdjacentCorners(e: Extent)
    requires NonDegenerate(e)
    ensures forall k :: 0 <= k < 12 ==>
      IsCorner(e, Edges(e)[k].start) && IsCorner(e, Edges(e)[k].end)
      && DiffCount(Edges(e)[k].start, Edges(e)[k].end) == 1
  {
    forall k | 0 <= k < 12
      ensures DiffCount(Edges(e)[k].start, Edges(e)[k].end) == 1
    {
      CornerInjective(e, EdgeCodes[k].0, EdgeCodes[k].1);
    }
  }

  /** No two of the twelve edges coincide, in either orientation. */
  lemma {:induction false} EdgesDistinct(e: Extent)
    requires NonDegenerate(e)
    ensures forall i, j :: 0 <= i < j < 12 ==> !SameSegment(Edges(e)[i], Edges(e)[j])
  {
    var E := Edges(e);
    forall i, j | 0 <= i < j < 12
      ensures !SameSegment(E[i], E[j])
    {
      assert !SameCodes(EdgeCodes[i], EdgeCodes[j]);
      CornerInjective(e, EdgeCodes[i].0, EdgeCodes[j].0);
      CornerInjective(e, EdgeCodes[i].1, EdgeCodes[j].1);
      CornerInjective(e, EdgeCodes[i].0, EdgeCodes[j].1);
      CornerInjective(e, EdgeCodes[i].1, EdgeCodes[j].0);
    }
  }

  /** Every pair of corners one axis apart is joined by one of the edges. */
  lemma {:induction false} EdgesComplete(e: Extent, a: CornerCode, b: CornerCode)
    requires CodeDiff(a, b) == 1
    ensures exists k :: 0 <= k < 12 && SameSegment(Edges(e)[k], LineSegment(Corner(e, a), Corner(e, b)))
  {
    var k :=
      if a.hx != b.hx then (if a.hy && a.hz then 2 else if a.hz then 3 else if a.hy then 10 else 8)
      else if a.hy != b.hy then (if a.hx && a.hz then 1 else if a.hz then 4 else if a.hx then 7 else 11)
      else (if a.hx && a.hy then 0 else if a.hy then 9 else if a.hx then 6 else 5);
    assert SameCodes(EdgeCodes[k], (a, b));
    assert SameSegment(Edges(e)[k], LineSegment(Corner(e, a), Corner(e, b)));
  }
}
