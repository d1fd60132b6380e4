/** `SpatialUtilities`: grid enumeration and the slab test of a line segment
    against an axis-aligned box. A callback passed to `EnumerateSpace` is
    modelled by the sequence of arguments it would receive, in call order. */
module Spatial {
  import opened Wrappers
  import opened Vectors

  type Cell3 = (int, int, int)
  type Cell2 = (int, int)

  /* ---------- EnumerateSpace ---------- */

  /** The calls made for one `z` loop: (x, y, 0) .. (x, y, z-1). */
  function Row3(x: int, y: int, z: int): seq<Cell3>
    decreases z
  {
    if z <= 0 then [] else Row3(x, y, z - 1) + [(x, y, z - 1)]
  }

  /** The calls made for one `y` loop: rows 0 .. y-1 of slice x. */
  function Slice3(x: int, y: int, z: int): seq<Cell3>
    decreases y
  {
    if y <= 0 then [] else Slice3(x, y - 1, z) + Row3(x, y - 1, z)
  }

  /** The calls made by the whole three-level loop over [0,X)x[0,Y)x[0,Z). */
  function Grid3(x: int, y: int, z: int): seq<Cell3>
    decreases x
  {
    if x <= 0 then [] else Grid3(x - 1, y, z) + Slice3(x - 1, y, z)
  }

  predicate InGrid3(t: Cell3, x: int, y: int, z: int)
  {
    0 <= t.0 < x && 0 <= t.1 < y && 0 <= t.2 < z
  }

  /** Lexicographic order with x most significant and z least. */
  predicate Before3(a: Cell3, b: Cell3)
  {
    a.0 < b.0 || (a.0 == b.0 && (a.1 < b.1 || (a.1 == b.1 && a.2 < b.2)))
  }

  predicate Increasing3(s: seq<Cell3>)
  {
    forall i, j :: 0 <= i < j < |s| ==> Before3(s[i], s[j])
  }

  lemma {:induction false} Increasing3Concat(a: seq<Cell3>, b: seq<Cell3>)
    requires Increasing3(a) && Increasing3(b)
    requires forall i, j :: 0 <= i < |a| && 0 <= j < |b| ==> Before3(a[i], b[j])
    ensures Increasing3(a + b)
  {
    var s := a + b;
    forall i, j | 0 <= i < j < |s| ensures Before3(s[i], s[j]) {
      if j < |a| {
        assert s[i] == a[i] && s[j] == a[j];
      } else if i >= |a| {
        assert s[i] == b[i - |a|] && s[j] == b[j - |a|];
      } else {
        assert s[i] == a[i] && s[j] == b[j - |a|];
      }
    }
  }

  /** `EnumerateSpace(X, Y, Z, Action)`: the triple loop, returning the calls. */
  method EnumerateSpace(X: int, Y: int, Z: int) returns (calls: seq<Cell3>)
    ensures calls == Grid3(X, Y, Z)
  {
    calls := [];
    var x := 0;
    while x < X
      invariant X <= 0 ==> x == 0
      invariant X > 0 ==> 0 <= x <= X
      invariant calls == Grid3(x, Y, Z)
    {
      var y := 0;
      while y < Y
        invariant Y <= 0 ==> y == 0
        invariant Y > 0 ==> 0 <= y <= Y
        invariant calls == Grid3(x, Y, Z) + Slice3(x, y, Z)
      {
        var z := 0;
        while z < Z
          invariant Z <= 0 ==> z == 0
          invariant Z > 0 ==> 0 <= z <= Z
          invariant calls == Grid3(x, Y, Z) + Slice3(x, y, Z) + Row3(x, y, z)
        {
          calls := calls + [(x, y, z)];
          z := z + 1;
        }
        y := y + 1;
      }
      x := x + 1;
    }
  }

  /** `EnumerateSpace(Vector3 size, Action)`: the same loop over the size's components. */
  method EnumerateSpaceOf(size: Vector3) returns (calls: seq<Cell3>)
    ensures calls == Grid3(size.x, size.y, size.z)
  {
    calls := EnumerateSpace(size.x, size.y, size.z);
  }

  lemma {:induction false} Row3Members(x: int, y: int, z: int)
    ensures forall t :: t in Row3(x, y, z) <==> (t.0 == x && t.1 == y && 0 <= t.2 < z)
    ensures forall i, j :: 0 <= i < j < |Row3(x, y, z)| ==> Row3(x, y, z)[i].2 < Row3(x, y, z)[j].2
    ensures forall i :: 0 <= i < |Row3(x, y, z)| ==> Row3(x, y, z)[i].0 == x && Row3(x, y, z)[i].1 == y
    decreases z
  {
    if z > 0 {
      Row3Members(x, y, z - 1);
    }
  }

  lemma {:induction false} Slice3Members(x: int, y: int, z: int)
    ensures forall t :: t in Slice3(x, y, z) <==> (t.0 == x && 0 <= t.1 < y && 0 <= t.2 < z)
    ensures forall i :: 0 <= i < |Slice3(x, y, z)| ==> Slice3(x, y, z)[i].0 == x
    ensures Increasing3(Slice3(x, y, z))
    decreases y
  {
    if y > 0 {
      Slice3Members(x, y - 1, z);
      Row3Members(x, y - 1, z);
      var a, b := Slice3(x, y - 1, z), Row3(x, y - 1, z);
      forall i, j | 0 <= i < |a| && 0 <= j < |b| ensures Before3(a[i], b[j]) {
        assert a[i] in a;
      }
      Increasing3Concat(a, b);
      assert Slice3(x, y, z) == a + b;
    }
  }

  /** Every cell of the box is enumerated, nothing else is, and the order is
      strictly increasing, so each cell is visited exactly once. */
  lemma {:induction false} Grid3Members(x: int, y: int, z: int)
    ensures forall t :: t in Grid3(x, y, z) <==> InGrid3(t, x, y, z)
    ensures Increasing3(Grid3(x, y, z))
    decreases x
  {
    if x > 0 {
      Grid3Members(x - 1, y, z);
      Slice3Members(x - 1, y, z);
      var a, b := Grid3(x - 1, y, z), Slice3(x - 1, y, z);
      forall i, j | 0 <= i < |a| && 0 <= j < |b| ensures Before3(a[i], b[j]) {
        assert a[i] in a;
      }
      Increasing3Concat(a, b);
      assert Grid3(x, y, z) == a + b;
    }
  }

  /** The calls made by the 2-D loop over [0,X)x[0,Y), x outermost. */
  function Row2(x: int, y: int): seq<Cell2>
    decreases y
  {
    if y <= 0 then [] else Row2(x, y - 1) + [(x, y - 1)]
  }

  function Grid2(x: int, y: int): seq<Cell2>
    decreases x
  {
    if x <= 0 then [] else Grid2(x - 1, y) + Row2(x - 1, y)
  }

  predicate Before2(a: Cell2, b: Cell2)
  {
    a.0 < b.0 || (a.0 == b.0 && a.1 < b.1)
  }

  /** `EnumerateSpace(X, Y, Action)`: the double loop, returning the calls. */
  method EnumerateSpace2(X: int, Y: int) returns (calls: seq<Cell2>)
    ensures calls == Grid2(X, Y)
  {
    calls := [];
    var x := 0;
    while x < X
      invariant X <= 0 ==> x == 0
      invariant X > 0 ==> 0 <= x <= X
      invariant calls == Grid2(x, Y)
    {
      var y := 0;
      while y < Y
        invariant Y <= 0 ==> y == 0
        invariant Y > 0 ==> 0 <= y <= Y
        invariant calls == Grid2(x, Y) + Row2(x, y)
      {
        calls := calls + [(x, y)];
        y := y + 1;
      }
      x := x + 1;
    }
  }

  lemma {:induction false} Row2Members(x: int, y: int)
    ensures forall t :: t in Row2(x, y) <==> (t.0 == x && 0 <= t.1 < y)
    ensures forall i, j :: 0 <= i < j < |Row2(x, y)| ==> Row2(x, y)[i].1 < Row2(x, y)[j].1
    ensures forall i :: 0 <= i < |Row2(x, y)| ==> Row2(x, y)[i].0 == x
    decreases y
  {
    if y > 0 {
      Row2Members(x, y - 1);
    }
  }

  /** The 2-D enumeration visits each cell of [0,X)x[0,Y) exactly once, in
      increasing order. */
  lemma {:induction false} Grid2Members(x: int, y: int)
    ensures forall t :: t in Grid2(x, y) <==> (0 <= t.0 < x && 0 <= t.1 < y)
    ensures forall i, j :: 0 <= i < j < |Grid2(x, y)| ==> Before2(Grid2(x, y)[i], Grid2(x, y)[j])
    decreases x
  {
    if x > 0 {
      Grid2Members(x - 1, y);
      Row2Members(x - 1, y);
      var a, b := Grid2(x - 1, y), Row2(x - 1, y);
      assert forall i :: 0 <= i < |a| ==> a[i].0 < x - 1 by {
        forall i | 0 <= i < |a| ensures a[i].0 < x - 1 {
          assert a[i] in a;
        }
      }
      assert Grid2(x, y) == a + b;
    }
  }

  /* ---------- GetIntersection, InBox, CheckLineBox ---------- */

  /** The parameter along P1->P2 at which the signed distance crosses zero. */
  function CrossingParameter(d1: real, d2: real): real
    requires d1 != d2
  {
    -d1 / (d2 - d1)
  }

  /** `GetIntersection`: no hit when both distances have the same sign or one
      is zero; otherwise the point where the signed distance vanishes. */
  function GetIntersection(d1: real, d2: real, p1: Vector3D, p2: Vector3D): (r: Option<Vector3D>)
    ensures r.None? <==> d1 * d2 >= 0.0
  {
    if d1 * d2 >= 0.0 then None
    else if d1 == d2 then None
    else Some(Add(p1, Scale(Sub(p2, p1), CrossingParameter(d1, d2))))
  }

  /** Opposite signs put the crossing strictly between the two end points. */
  lemma {:induction false} CrossingInsideSegment(d1: real, d2: real)
    requires d1 * d2 < 0.0
    ensures d1 != d2
    ensures 0.0 < CrossingParameter(d1, d2) < 1.0
  {
    if d1 > 0.0 {
      var t := d1 / (d1 - d2);
      assert CrossingParameter(d1, d2) == t;
      assert t * (d1 - d2) == d1;
    } else {
      var t := (-d1) / (d2 - d1);
      assert CrossingParameter(d1, d2) == t;
      assert t * (d2 - d1) == -d1;
    }
  }

  /** The point P1 + (P2 - P1)·t. */
  function PointAt(p1: Vector3D, p2: Vector3D, t: real): Vector3D
  {
    Add(p1, Scale(Sub(p2, p1), t))
  }

  /** A hit lies on the segment, strictly between its end points. */
  lemma {:induction false} IntersectionOnSegment(d1: real, d2: real, p1: Vector3D, p2: Vector3D)
    requires GetIntersection(d1, d2, p1, p2).Some?
    ensures exists t :: 0.0 < t < 1.0 && GetIntersection(d1, d2, p1, p2).value == PointAt(p1, p2, t)
  {
    CrossingInsideSegment(d1, d2);
    var t := CrossingParameter(d1, d2);
    assert GetIntersection(d1, d2, p1, p2).value == PointAt(p1, p2, t);
  }

  /** A real identity: (b - a)·(-(a - c) / (b - a)) = c - a when a != b. */
  lemma {:induction false} CrossingCoordinate(a: real, b: real, c: real)
    requires a != b
    ensures a + (b - a) * CrossingParameter(a - c, b - c) == c
  {
    var q := -(a - c) / (b - a);
    assert (b - c) - (a - c) == b - a;
    assert CrossingParameter(a - c, b - c) == q;
    assert (b - a) * q == -(a - c);
  }

  /** When the distances are a coordinate's offsets from a plane, the hit lies
      on that plane. */
  lemma {:induction false} IntersectionOnPlaneX(p1: Vector3D, p2: Vector3D, c: real)
    requires GetIntersection(p1.x - c, p2.x - c, p1, p2).Some?
    ensures GetIntersection(p1.x - c, p2.x - c, p1, p2).value.x == c
  {
    CrossingCoordinate(p1.x, p2.x, c);
  }

  lemma {:induction false} IntersectionOnPlaneY(p1: Vector3D, p2: Vector3D, c: real)
    requires GetIntersection(p1.y - c, p2.y - c, p1, p2).Some?
    ensures GetIntersection(p1.y - c, p2.y - c, p1, p2).value.y == c
  {
    CrossingCoordinate(p1.y, p2.y, c);
  }

  lemma {:induction false} IntersectionOnPlaneZ(p1: Vector3D, p2: Vector3D, c: real)
    requires GetIntersection(p1.z - c, p2.z - c, p1, p2).Some?
    ensures GetIntersection(p1.z - c, p2.z - c, p1, p2).value.z == c
  {
    CrossingCoordinate(p1.z, p2.z, c);
  }

  /** `InBox`: the two coordinates other than `axis` lie strictly inside the
      box; axes other than 1, 2 and 3 never match. */
  predicate InBox(hit: Vector3D, b1: Vector3D, b2: Vector3D, axis: int)
  {
    (axis == 1 && hit.z > b1.z && hit.z < b2.z && hit.y > b1.y && hit.y < b2.y)
    || (axis == 2 && hit.z > b1.z && hit.z < b2.z && hit.x > b1.x && hit.x < b2.x)
    || (axis == 3 && hit.x > b1.x && hit.x < b2.x && hit.y > b1.y && hit.y < b2.y)
  }

  /** The hit on one face of the box, if the segment crosses that face's plane
      strictly inside the face. */
  function FaceHit(d1: real, d2: real, b1: Vector3D, b2: Vector3D, l1: Vector3D, l2: Vector3D, axis: int): Option<Vector3D>
  {
    var h := GetIntersection(d1, d2, l1, l2);
    if h.Some? && InBox(h.value, b1, b2, axis) then h else None
  }

  /** Both end points strictly beyond the same face of the box. */
  predicate TriviallyOutside(b1: Vector3D, b2: Vector3D, l1: Vector3D, l2: Vector3D)
  {
    (l2.x < b1.x && l1.x < b1.x) || (l2.x > b2.x && l1.x > b2.x)
    || (l2.y < b1.y && l1.y < b1.y) || (l2.y > b2.y && l1.y > b2.y)
    || (l2.z < b1.z && l1.z < b1.z) || (l2.z > b2.z && l1.z > b2.z)
  }

  predicate StrictlyInside(p: Vector3D, b1: Vector3D, b2: Vector3D)
  {
    p.x > b1.x && p.x < b2.x && p.y > b1.y && p.y < b2.y && p.z > b1.z && p.z < b2.z
  }

  /** `CheckLineBox`: `None` for the null result. */
  function CheckLineBox(b1: Vector3D, b2: Vector3D, l1: Vector3D, l2: Vector3D): (r: Option<Vector3D>)
    ensures TriviallyOutside(b1, b2, l1, l2) ==> r.None?
    ensures !TriviallyOutside(b1, b2, l1, l2) && StrictlyInside(l1, b1, b2) ==> r == Some(l1)
  {
    if TriviallyOutside(b1, b2, l1, l2) then None
    else if StrictlyInside(l1, b1, b2) then Some(l1)
    else
      var h1 := FaceHit(l1.x - b1.x, l2.x - b1.x, b1, b2, l1, l2, 1);
      if h1.Some? then h1 else
      var h2 := FaceHit(l1.y - b1.y, l2.y - b1.y, b1, b2, l1, l2, 2);
      if h2.Some? then h2 else
      var h3 := FaceHit(l1.z - b1.z, l2.z - b1.z, b1, b2, l1, l2, 3);
      if h3.Some? then h3 else
      var h4 := FaceHit(l1.x - b2.x, l2.x - b2.x, b1, b2, l1, l2, 1);
      if h4.Some? then h4 else
      var h5 := FaceHit(l1.y - b2.y, l2.y - b2.y, b1, b2, l1, l2, 2);
      if h5.Some? then h5 else
      FaceHit(l1.z - b2.z, l2.z - b2.z, b1, b2, l1, l2, 3)
  }

  /** A point on a face of the box: one coordinate on a bounding plane, the
      other two strictly inside. */
  predicate OnFace(p: Vector3D, b1: Vector3D, b2: Vector3D)
  {
    ((p.x == b1.x || p.x == b2.x) && b1.y < p.y < b2.y && b1.z < p.z < b2.z)
    || ((p.y == b1.y || p.y == b2.y) && b1.x < p.x < b2.x && b1.z < p.z < b2.z)
    || ((p.z == b1.z || p.z == b2.z) && b1.x < p.x < b2.x && b1.y < p.y < b2.y)
  }

  /** From an end point not strictly inside the box, whatever `CheckLineBox`
      returns is a point strictly between the end points of the segment that
      lies on a face of the box. */
  lemma {:induction false} CheckLineBoxLeaves(b1: Vector3D, b2: Vector3D, l1: Vector3D, l2: Vector3D)
    requires CheckLineBox(b1, b2, l1, l2).Some? && !StrictlyInside(l1, b1, b2)
    ensures var p := CheckLineBox(b1, b2, l1, l2).value;
      OnFace(p, b1, b2) && exists t :: 0.0 < t < 1.0 && p == PointAt(l1, l2, t)
  {
    if FaceHit(l1.x - b1.x, l2.x - b1.x, b1, b2, l1, l2, 1).Some? {
      IntersectionOnPlaneX(l1, l2, b1.x);
      IntersectionOnSegment(l1.x - b1.x, l2.x - b1.x, l1, l2);
    } else if FaceHit(l1.y - b1.y, l2.y - b1.y, b1, b2, l1, l2, 2).Some? {
      IntersectionOnPlaneY(l1, l2, b1.y);
      IntersectionOnSegment(l1.y - b1.y, l2.y - b1.y, l1, l2);
    } else if FaceHit(l1.z - b1.z, l2.z - b1.z, b1, b2, l1, l2, 3).Some? {
      IntersectionOnPlaneZ(l1, l2, b1.z);
      IntersectionOnSegment(l1.z - b1.z, l2.z - b1.z, l1, l2);
    } else if FaceHit(l1.x - b2.x, l2.x - b2.x, b1, b2, l1, l2, 1).Some? {
      IntersectionOnPlaneX(l1, l2, b2.x);
      IntersectionOnSegment(l1.x - b2.x, l2.x - b2.x, l1, l2);
    } else if FaceHit(l1.y - b2.y, l2.y - b2.y, b1, b2, l1, l2, 2).Some? {
      IntersectionOnPlaneY(l1, l2, b2.y);
      IntersectionOnSegment(l1.y - b2.y, l2.y - b2.y, l1, l2);
    } else {
      IntersectionOnPlaneZ(l1, l2, b2.z);
      IntersectionOnSegment(l1.z - b2.z, l2.z - b2.z, l1, l2);
    }
  }

  /** Whatever `CheckLineBox` returns besides `L1` itself is a point strictly
      between the end points of the segment that lies on a face of the box. */
  lemma {:induction false} CheckLineBoxSound(b1: Vector3D, b2: Vector3D, l1: Vector3D, l2: Vector3D)
    requires CheckLineBox(b1, b2, l1, l2).Some?
    ensures var p := CheckLineBox(b1, b2, l1, l2).value;
      p == l1 || (OnFace(p, b1, b2) && exists t :: 0.0 < t < 1.0 && p == PointAt(l1, l2, t))
  {
    if !StrictlyInside(l1, b1, b2) {
      CheckLineBoxLeaves(b1, b2, l1, l2);
    }
  }

  /** The face planes are tried in the order min-X, min-Y, min-Z, max-X,
      max-Y, max-Z: a hit strictly inside the min-X face wins over all others. */
  lemma {:induction false} CheckLineBoxPrefersMinX(b1: Vector3D, b2: Vector3D, l1: Vector3D, l2: Vector3D)
    requires !TriviallyOutside(b1, b2, l1, l2) && !StrictlyInside(l1, b1, b2)
    requires FaceHit(l1.x - b1.x, l2.x - b1.x, b1, b2, l1, l2, 1).Some?
    ensures CheckLineBox(b1, b2, l1, l2).Some? && CheckLineBox(b1, b2, l1, l2).value.x == b1.x
  {
    IntersectionOnPlaneX(l1, l2, b1.x);
  }

  /** A positive factor keeps the sign of a product. */
  lemma {:induction false} SignOfProduct(x: real, k: real)
    requires k > 0.0
    ensures (x < 0.0 <==> x * k < 0.0) && (x > 0.0 <==> x * k > 0.0)
  {
  }

  /** A point strictly inside a segment is not beyond a plane that both end
      points are on the same side of. */
  lemma {:induction false} PointAtSide(a: real, b: real, c: real, t: real)
    requires 0.0 < t < 1.0
    ensures a < c && b < c ==> a + (b - a) * t < c
    ensures a > c && b > c ==> a + (b - a) * t > c
  {
    var k := 1.0 - t;
    var x := c - a;
    var y := c - b;
    SignOfProduct(x, k);
    SignOfProduct(y, t);
    assert x * k + y * t == c - (a + (b - a) * t);
  }

  /** A segment that reaches a plane strictly between its end points, and
      does not lie in it, crosses it there: the distances have opposite signs
      and the crossing parameter is that point's. */
  lemma {:induction false} CrossingAt(d1: real, d2: real, t: real)
    requires 0.0 < t < 1.0 && d1 + (d2 - d1) * t == 0.0 && (d1 != 0.0 || d2 != 0.0)
    ensures d1 * d2 < 0.0 && d1 != d2 && CrossingParameter(d1, d2) == t
  {
    var k := 1.0 - t;
    assert d1 * k + d2 * t == 0.0;
    SignOfProduct(d1, k);
    SignOfProduct(d2, t);
    if d1 > 0.0 {
      SignOfProduct(-d2, d1);
      assert d1 * d2 == -((-d2) * d1);
    } else if d1 < 0.0 {
      SignOfProduct(d2, -d1);
      assert d1 * d2 == -(d2 * (-d1));
    } else {
      assert false;
    }
    assert t * (d2 - d1) == -d1;
  }

  /** Such a crossing inside the face is the hit `FaceHit` reports. */
  lemma {:induction false} FaceHitAt(d1: real, d2: real, b1: Vector3D, b2: Vector3D, l1: Vector3D, l2: Vector3D,
                                     axis: int, t: real)
    requires 0.0 < t < 1.0 && d1 + (d2 - d1) * t == 0.0 && (d1 != 0.0 || d2 != 0.0)
    requires InBox(PointAt(l1, l2, t), b1, b2, axis)
    ensures FaceHit(d1, d2, b1, b2, l1, l2, axis) == Some(PointAt(l1, l2, t))
  {
    CrossingAt(d1, d2, t);
  }

  /** On a box whose first corner is its least, a segment with a point on a
      face is not beyond any one face. */
  lemma {:induction false} FacePointNotOutside(b1: Vector3D, b2: Vector3D, l1: Vector3D, l2: Vector3D, t: real)
    requires b1.x <= b2.x && b1.y <= b2.y && b1.z <= b2.z
    requires 0.0 < t < 1.0 && OnFace(PointAt(l1, l2, t), b1, b2)
    ensures !TriviallyOutside(b1, b2, l1, l2)
  {
    PointAtSide(l1.x, l2.x, b1.x, t);
    PointAtSide(l1.x, l2.x, b2.x, t);
    PointAtSide(l1.y, l2.y, b1.y, t);
    PointAtSide(l1.y, l2.y, b2.y, t);
    PointAtSide(l1.z, l2.z, b1.z, t);
    PointAtSide(l1.z, l2.z, b2.z, t);
  }

  /** Past the early exits, a null result means all six faces were tried and
      missed. */
  lemma {:induction false} CheckLineBoxTriedAll(b1: Vector3D, b2: Vector3D, l1: Vector3D, l2: Vector3D)
    requires CheckLineBox(b1, b2, l1, l2).None? && !TriviallyOutside(b1, b2, l1, l2)
    ensures !StrictlyInside(l1, b1, b2)
    ensures FaceHit(l1.x - b1.x, l2.x - b1.x, b1, b2, l1, l2, 1).None?
    ensures FaceHit(l1.y - b1.y, l2.y - b1.y, b1, b2, l1, l2, 2).None?
    ensures FaceHit(l1.z - b1.z, l2.z - b1.z, b1, b2, l1, l2, 3).None?
    ensures FaceHit(l1.x - b2.x, l2.x - b2.x, b1, b2, l1, l2, 1).None?
    ensures FaceHit(l1.y - b2.y, l2.y - b2.y, b1, b2, l1, l2, 2).None?
    ensures FaceHit(l1.z - b2.z, l2.z - b2.z, b1, b2, l1, l2, 3).None?
  {
  }

  /** A face that `FaceHit` missed, on the plane where coordinate `c1`..`c2`
      equals `c`, is reached strictly inside the segment only when the segment
      lies in that plane. */
  lemma {:induction false} FaceMissedInPlane(c1: real, c2: real, c: real, b1: Vector3D, b2: Vector3D,
                                             l1: Vector3D, l2: Vector3D, axis: int, t: real)
    requires 0.0 < t < 1.0 && FaceHit(c1 - c, c2 - c, b1, b2, l1, l2, axis).None?
    requires c1 + (c2 - c1) * t == c && InBox(PointAt(l1, l2, t), b1, b2, axis)
    ensures c1 == c && c2 == c
  {
    if c1 != c || c2 != c {
      assert (c1 - c) + ((c2 - c) - (c1 - c)) * t == 0.0;
      FaceHitAt(c1 - c, c2 - c, b1, b2, l1, l2, axis, t);
      assert false;
    }
  }

  /** The coordinate of `v` along `axis` (1, 2 or 3 for x, y, z). */
  function Coord(v: Vector3D, axis: int): real
  {
    if axis == 1 then v.x else if axis == 2 then v.y else v.z
  }

  /** The two faces across one axis, both missed by `FaceHit`, are reached
      strictly inside the segment only in the plane of the segment. */
  lemma {:induction false} AxisMissedInPlane(lo: real, hi: real, b1: Vector3D, b2: Vector3D,
                                             l1: Vector3D, l2: Vector3D, axis: int, t: real)
    requires 0.0 < t < 1.0 && 1 <= axis <= 3
    requires FaceHit(Coord(l1, axis) - lo, Coord(l2, axis) - lo, b1, b2, l1, l2, axis).None?
    requires FaceHit(Coord(l1, axis) - hi, Coord(l2, axis) - hi, b1, b2, l1, l2, axis).None?
    ensures (Coord(PointAt(l1, l2, t), axis) == lo || Coord(PointAt(l1, l2, t), axis) == hi)
            && InBox(PointAt(l1, l2, t), b1, b2, axis)
            ==> Coord(l1, axis) == Coord(l2, axis) && (Coord(l1, axis) == lo || Coord(l1, axis) == hi)
  {
    var c1, c2 := Coord(l1, axis), Coord(l2, axis);
    assert Coord(PointAt(l1, l2, t), axis) == c1 + (c2 - c1) * t;
    if c1 + (c2 - c1) * t == lo && InBox(PointAt(l1, l2, t), b1, b2, axis) {
      FaceMissedInPlane(c1, c2, lo, b1, b2, l1, l2, axis, t);
    } else if c1 + (c2 - c1) * t == hi && InBox(PointAt(l1, l2, t), b1, b2, axis) {
      FaceMissedInPlane(c1, c2, hi, b1, b2, l1, l2, axis, t);
    }
  }

  /** A null result (on a box whose first corner is its least) misses every
      face: a point strictly inside the segment lies on a face only when the
      whole segment lies in that face's plane, which the slab test does not
      treat as a crossing. */
  lemma {:induction false} CheckLineBoxComplete(b1: Vector3D, b2: Vector3D, l1: Vector3D, l2: Vector3D, t: real)
    requires b1.x <= b2.x && b1.y <= b2.y && b1.z <= b2.z
    requires CheckLineBox(b1, b2, l1, l2).None?
    requires 0.0 < t < 1.0 && OnFace(PointAt(l1, l2, t), b1, b2)
    ensures (l1.x == l2.x && (l1.x == b1.x || l1.x == b2.x))
         || (l1.y == l2.y && (l1.y == b1.y || l1.y == b2.y))
         || (l1.z == l2.z && (l1.z == b1.z || l1.z == b2.z))
  {
    FacePointNotOutside(b1, b2, l1, l2, t);
    CheckLineBoxTriedAll(b1, b2, l1, l2);
    AxisMissedInPlane(b1.x, b2.x, b1, b2, l1, l2, 1, t);
    AxisMissedInPlane(b1.y, b2.y, b1, b2, l1, l2, 2, t);
    AxisMissedInPlane(b1.z, b2.z, b1, b2, l1, l2, 3, t);
  }
}
