/** `TransformUVs` of `PyriteLib/Obj.cs`, on the mesh's UV and face lists as
    values. For each extent, in order: the faces with a vertex in the extent
    are selected, the distinct UV indices they use are collected, and each
    of those UVs is moved by the first of the extent's transforms whose
    rectangle holds its ORIGINAL point. A UV another extent has already
    moved is cloned from its original point, the clone is moved, and the
    extent's faces that use the old UV are pointed at the clone.

    The invariants proved: every UV is either its loaded point or that point
    moved by a transform whose rectangle holds it, and every face corner
    still names a UV with the original point it was loaded with. */
module UvTransforms {
  import opened Wrappers
  import opened Extents
  import opened Vertices
  import opened Faces
  import opened Uvs
  import opened RectTransforms
  import ObjWriter

  /** The transforms of one extent, as the options map them. */
  datatype ExtentTransforms = ExtentTransforms(extent: Extent, transforms: seq<RectangleTransform>)

  /* ---------- the state and its invariants ---------- */

  /** Every UV's index field is its 1-based position. */
  predicate UvsIndexed(uvs: seq<Uv>)
  {
    forall n :: 0 <= n < |uvs| ==> uvs[n].index == n + 1
  }

  /** Every current and original UV index of every face names an entry. */
  predicate UvRefsIn(faces: seq<FaceRec>, count: int)
  {
    forall j :: 0 <= j < |faces| ==>
      (forall c :: 0 <= c < |faces[j].vt| ==> 1 <= faces[j].vt[c] <= count)
      && (forall c :: 0 <= c < |faces[j].origVt| ==> 1 <= faces[j].origVt[c] <= count)
  }

  predicate VertexRefsIn(faces: seq<FaceRec>, count: int)
  {
    forall j :: 0 <= j < |faces| ==> IndicesIn(faces[j], count)
  }

  predicate SamePoint(a: Uv, b: Uv)
  {
    a.originalX == b.originalX && a.originalY == b.originalY
  }

  /** Each corner's current UV stands for the point its loaded UV stood for. */
  predicate CornersKeepPoints(uvs: seq<Uv>, faces: seq<FaceRec>)
    requires AllWellFormed(faces) && UvRefsIn(faces, |uvs|)
  {
    forall j, c :: 0 <= j < |faces| && 0 <= c < |faces[j].vt| ==>
      SamePoint(uvs[faces[j].vt[c] - 1], uvs[faces[j].origVt[c] - 1])
  }

  /** A UV is its loaded point, untransformed, or that point moved by one of
      `all` whose rectangle holds it. */
  predicate Explained(u: Uv, all: set<RectangleTransform>)
  {
    (!u.transformed && u.x == u.originalX && u.y == u.originalY)
    || (u.transformed && exists t :: (t in all && InRectangleTransform(u, t)
          && u.x == t.left + (u.originalX - t.left) * t.scaleX - t.offsetX
          && u.y == t.top + (u.originalY - t.top) * t.scaleY + t.offsetY))
  }

  predicate AllExplained(uvs: seq<Uv>, all: set<RectangleTransform>)
  {
    forall n :: 0 <= n < |uvs| ==> Explained(uvs[n], all)
  }

  /** What a pass keeps of the UV list: it only grows, no entry changes its
      original point or index, and a transformed entry does not change. */
  predicate Grows(a: seq<Uv>, b: seq<Uv>)
  {
    |a| <= |b|
    && forall n :: 0 <= n < |a| ==>
      SamePoint(b[n], a[n]) && b[n].index == a[n].index && (a[n].transformed ==> b[n] == a[n])
  }

  /** What a pass keeps of the face list: everything but current UV indices. */
  predicate SameShape(a: seq<FaceRec>, b: seq<FaceRec>)
  {
    |a| == |b|
    && forall j :: 0 <= j < |a| ==>
      b[j].v == a[j].v && b[j].origV == a[j].origV && b[j].origVt == a[j].origVt && |b[j].vt| == |a[j].vt|
  }

  /** The invariant the pass keeps. */
  predicate Inv(uvs: seq<Uv>, faces: seq<FaceRec>, all: set<RectangleTransform>)
  {
    UvsIndexed(uvs) && AllWellFormed(faces) && UvRefsIn(faces, |uvs|)
    && CornersKeepPoints(uvs, faces) && AllExplained(uvs, all)
  }

  lemma {:induction false} GrowsTrans(a: seq<Uv>, b: seq<Uv>, c: seq<Uv>)
    requires Grows(a, b) && Grows(b, c)
    ensures Grows(a, c)
  {
  }

  lemma {:induction false} SameShapeTrans(a: seq<FaceRec>, b: seq<FaceRec>, c: seq<FaceRec>)
    requires SameShape(a, b) && SameShape(b, c)
    ensures SameShape(a, c)
  {
  }

  /* ---------- one UV ---------- */

  /** The first transform whose rectangle holds the UV's original point. */
  function FirstContaining(ts: seq<RectangleTransform>, u: Uv): (r: Option<RectangleTransform>)
    ensures r.Some? ==> r.value in ts && InRectangleTransform(u, r.value)
    ensures r.None? ==> forall t :: t in ts ==> !InRectangleTransform(u, t)
  {
    if ts == [] then None
    else if InRectangleTransform(u, ts[0]) then Some(ts[0])
    else FirstContaining(ts[1..], u)
  }

  /** No transform before the `n`-th holds the UV's original point. */
  predicate NoneBefore(ts: seq<RectangleTransform>, u: Uv, n: int)
    requires n <= |ts|
  {
    forall m :: 0 <= m < n ==> !InRectangleTransform(u, ts[m])
  }

  /** The transform found is the first in the list that holds the point. */
  lemma {:induction false} FirstContainingIsFirst(ts: seq<RectangleTransform>, u: Uv)
    ensures var r := FirstContaining(ts, u);
      r.Some? ==> exists n :: 0 <= n < |ts| && ts[n] == r.value && NoneBefore(ts, u, n)
  {
    if ts != [] && !InRectangleTransform(u, ts[0]) {
      var r := FirstContaining(ts[1..], u);
      FirstContainingIsFirst(ts[1..], u);
      if r.Some? {
        var n :| 0 <= n < |ts| - 1 && ts[1..][n] == r.value && NoneBefore(ts[1..], u, n);
        assert forall m :: 0 < m < n + 1 ==> ts[m] == ts[1..][m - 1];
        assert ts[n + 1] == r.value && NoneBefore(ts, u, n + 1);
      }
    } else if ts != [] {
      assert NoneBefore(ts, u, 0);
    }
  }

  /** `v` is a UV moved by `t` from the point (x, y): scaled about the
      rectangle's top-left corner and shifted by the offset. */
  predicate MovedBy(v: Uv, x: real, y: real, t: RectangleTransform)
  {
    v.transformed && v.x == t.left + (x - t.left) * t.scaleX - t.offsetX && v.y == t.top + (y - t.top) * t.scaleY + t.offsetY
  }

  /** What one visit does, by the first transform holding the UV's original
      point: no such transform leaves both lists alone; an untransformed UV
      is moved in place; a UV an earlier extent moved stays, a clone of its
      original point is appended and moved, and in each selected face that
      uses the UV the first corner loaded with it is pointed at the clone. */
  lemma {:induction false} VisitEffect(uvs: seq<Uv>, faces: seq<FaceRec>, sel: seq<nat>, ts: seq<RectangleTransform>, i: int)
    requires AllWellFormed(faces) && 1 <= i <= |uvs|
    ensures var u := uvs[i - 1]; var (uvs', faces') := Visit(uvs, faces, sel, ts, i);
      (FirstContaining(ts, u).None? ==> uvs' == uvs && faces' == faces)
      && (FirstContaining(ts, u).Some? && !u.transformed ==>
            faces' == faces && |uvs'| == |uvs|
            && (forall n :: 0 <= n < |uvs| && n != i - 1 ==> uvs'[n] == uvs[n])
            && MovedBy(uvs'[i - 1], u.x, u.y, FirstContaining(ts, u).value)
            && SamePoint(uvs'[i - 1], u) && uvs'[i - 1].index == u.index)
      && (FirstContaining(ts, u).Some? && u.transformed ==>
            |uvs'| == |uvs| + 1 && uvs'[..|uvs|] == uvs
            && MovedBy(uvs'[|uvs|], u.originalX, u.originalY, FirstContaining(ts, u).value)
            && SamePoint(uvs'[|uvs|], u) && uvs'[|uvs|].index == |uvs| + 1
            && SameShape(faces, faces')
            && forall j, q :: 0 <= j < |faces| && 0 <= q < |faces[j].vt| ==>
                 faces'[j].vt[q] == if j in sel && u.index in faces[j].vt && faces[j].origVt[q] == u.index
                                       && ObjWriter.FirstLoaded(faces[j], ObjWriter.TexCoords, q)
                                    then |uvs| + 1 else faces[j].vt[q])
  {
    var u := uvs[i - 1];
    if FirstContaining(ts, u).Some? {
      if u.transformed {
        VisitClone(uvs, faces, sel, ts, i);
        RetargetFirstLoaded(faces, sel, u.index, |uvs| + 1);
      } else {
        TransformUvFormula(u, FirstContaining(ts, u).value);
      }
    }
  }

  /** The visit of a UV an earlier extent moved: the clone case. */
  lemma {:induction false} VisitClone(uvs: seq<Uv>, faces: seq<FaceRec>, sel: seq<nat>, ts: seq<RectangleTransform>, i: int)
    requires AllWellFormed(faces) && 1 <= i <= |uvs|
    requires FirstContaining(ts, uvs[i - 1]).Some? && uvs[i - 1].transformed
    ensures var u := uvs[i - 1]; var (uvs', faces') := Visit(uvs, faces, sel, ts, i);
      |uvs'| == |uvs| + 1 && uvs'[..|uvs|] == uvs
      && MovedBy(uvs'[|uvs|], u.originalX, u.originalY, FirstContaining(ts, u).value)
      && SamePoint(uvs'[|uvs|], u) && uvs'[|uvs|].index == |uvs| + 1
      && SameShape(faces, faces')
      && faces' == ObjWriter.RenumberStep(faces, sel, ObjWriter.TexCoords, u.index, u.index, |uvs| + 1)
  {
    var u := uvs[i - 1];
    var t := FirstContaining(ts, u).value;
    var c := Clone(u, |uvs| + 1);
    CloneMovedBy(u, t, |uvs| + 1);
    var faces' := ObjWriter.RenumberStep(faces, sel, ObjWriter.TexCoords, u.index, u.index, |uvs| + 1);
    var (list, k) := CloneOriginalInto(u, uvs);
    assert list[k - 1 := TransformUv(list[k - 1], t)] == uvs + [TransformUv(c, t)];
    assert Visit(uvs, faces, sel, ts, i) == (uvs + [TransformUv(c, t)], faces');
    RetargetIsRetargeted(faces, sel, u.index, |uvs| + 1);
  }

  /** A clone moved by `t` is its original point moved by `t`. */
  lemma {:induction false} CloneMovedBy(u: Uv, t: RectangleTransform, k: int)
    ensures var m := TransformUv(Clone(u, k), t);
      MovedBy(m, u.originalX, u.originalY, t) && SamePoint(m, u) && m.index == k
  {
    var c := Clone(u, k);
    TransformUvFormula(c, t);
    assert c.x == u.originalX && c.y == u.originalY;
  }

  /** Retargeting the selected faces that use UV `from` points exactly the
      first corner of each loaded with `from` at `to`. */
  lemma {:induction false} RetargetFirstLoaded(faces: seq<FaceRec>, sel: seq<nat>, from: int, to: int)
    requires AllWellFormed(faces)
    ensures var r := ObjWriter.RenumberStep(faces, sel, ObjWriter.TexCoords, from, from, to);
      forall j, q :: 0 <= j < |faces| && 0 <= q < |faces[j].vt| ==>
        r[j].vt[q] == if j in sel && from in faces[j].vt && faces[j].origVt[q] == from
                         && ObjWriter.FirstLoaded(faces[j], ObjWriter.TexCoords, q)
                      then to else faces[j].vt[q]
  {
    var r := ObjWriter.RenumberStep(faces, sel, ObjWriter.TexCoords, from, from, to);
    forall j, q | 0 <= j < |faces| && 0 <= q < |faces[j].vt|
      ensures r[j].vt[q] == if j in sel && from in faces[j].vt && faces[j].origVt[q] == from
                               && ObjWriter.FirstLoaded(faces[j], ObjWriter.TexCoords, q)
                            then to else faces[j].vt[q]
    {
      ObjWriter.FirstLoadedUpdate(faces[j], ObjWriter.TexCoords, from, to, q);
    }
  }

  /** The visit of UV number `i` in an extent with transforms `ts`. */
  function Visit(uvs: seq<Uv>, faces: seq<FaceRec>, sel: seq<nat>, ts: seq<RectangleTransform>, i: int): (seq<Uv>, seq<FaceRec>)
    requires AllWellFormed(faces) && 1 <= i <= |uvs|
  {
    var u := uvs[i - 1];
    match FirstContaining(ts, u)
    case None => (uvs, faces)
    case Some(t) =>
      if u.transformed then
        var (list, k) := CloneOriginalInto(u, uvs);
        (list[k - 1 := TransformUv(list[k - 1], t)], ObjWriter.RenumberStep(faces, sel, ObjWriter.TexCoords, u.index, u.index, k))
      else
        (uvs[i - 1 := TransformUv(u, t)], faces)
  }

  /** Moving an untransformed UV in place keeps the invariant. */
  lemma {:induction false} MoveKeeps(uvs: seq<Uv>, faces: seq<FaceRec>, i: int, t: RectangleTransform, all: set<RectangleTransform>)
    requires Inv(uvs, faces, all) && 1 <= i <= |uvs| && !uvs[i - 1].transformed
    requires t in all && InRectangleTransform(uvs[i - 1], t)
    ensures var uvs' := uvs[i - 1 := TransformUv(uvs[i - 1], t)];
      Inv(uvs', faces, all) && Grows(uvs, uvs')
  {
    var uvs' := uvs[i - 1 := TransformUv(uvs[i - 1], t)];
    TransformUvFormula(uvs[i - 1], t);
    var u := uvs[i - 1];
    assert Explained(u, all);
    assert u.x == u.originalX && u.y == u.originalY;
    assert InRectangleTransform(uvs'[i - 1], t);
    assert Explained(uvs'[i - 1], all);
    forall j, q | 0 <= j < |faces| && 0 <= q < |faces[j].vt|
      ensures SamePoint(uvs'[faces[j].vt[q] - 1], uvs'[faces[j].origVt[q] - 1])
    {
      assert SamePoint(uvs[faces[j].vt[q] - 1], uvs[faces[j].origVt[q] - 1]);
    }
  }

  /** The clone of a UV, moved by a transform that holds its point, is
      explained, and so the list with it appended stays explained. */
  lemma {:induction false} CloneExplained(uvs: seq<Uv>, i: int, t: RectangleTransform, all: set<RectangleTransform>)
    requires UvsIndexed(uvs) && AllExplained(uvs, all) && 1 <= i <= |uvs|
    requires t in all && InRectangleTransform(uvs[i - 1], t)
    ensures var uvs' := uvs + [TransformUv(Clone(uvs[i - 1], |uvs| + 1), t)];
      UvsIndexed(uvs') && AllExplained(uvs', all) && Grows(uvs, uvs')
  {
    var u := uvs[i - 1];
    var m := TransformUv(Clone(u, |uvs| + 1), t);
    CloneMovedBy(u, t, |uvs| + 1);
    assert InRectangleTransform(m, t);
    assert Explained(m, all);
    var uvs' := uvs + [m];
    forall n | 0 <= n < |uvs'| ensures Explained(uvs'[n], all) && uvs'[n].index == n + 1 {
      if n < |uvs| {
        assert uvs'[n] == uvs[n];
      }
    }
  }

  /** Retargeting leaves a corner as it was, or points it at `to` where its
      loaded UV was `from`. */
  lemma {:induction false} RetargetCorner(faces: seq<FaceRec>, sel: seq<nat>, from: int, to: int, j: int, q: int)
    requires AllWellFormed(faces) && 0 <= j < |faces| && 0 <= q < |faces[j].vt|
    ensures var g := ObjWriter.RenumberStep(faces, sel, ObjWriter.TexCoords, from, from, to)[j];
      WellFormed(g) && g.v == faces[j].v && g.origV == faces[j].origV && g.origVt == faces[j].origVt
      && |g.vt| == |faces[j].vt|
      && (g.vt[q] == faces[j].vt[q] || (g.vt[q] == to && faces[j].origVt[q] == from))
  {
  }

  /** `b` is `a` with some corners whose loaded UV was `from` pointed at `to`. */
  predicate Retargeted(a: seq<FaceRec>, b: seq<FaceRec>, from: int, to: int)
  {
    AllWellFormed(a) && SameShape(a, b)
    && forall j, q :: 0 <= j < |a| && 0 <= q < |a[j].vt| ==>
      b[j].vt[q] == a[j].vt[q] || (b[j].vt[q] == to && a[j].origVt[q] == from)
  }

  lemma {:induction false} RetargetIsRetargeted(faces: seq<FaceRec>, sel: seq<nat>, from: int, to: int)
    requires AllWellFormed(faces)
    ensures var r := ObjWriter.RenumberStep(faces, sel, ObjWriter.TexCoords, from, from, to);
      Retargeted(faces, r, from, to) && AllWellFormed(r)
  {
    var r := ObjWriter.RenumberStep(faces, sel, ObjWriter.TexCoords, from, from, to);
    forall j | 0 <= j < |faces|
      ensures WellFormed(r[j]) && r[j].v == faces[j].v && r[j].origV == faces[j].origV
      ensures r[j].origVt == faces[j].origVt && |r[j].vt| == |faces[j].vt|
    {
    }
    forall j, q | 0 <= j < |faces| && 0 <= q < |faces[j].vt|
      ensures r[j].vt[q] == faces[j].vt[q] || (r[j].vt[q] == to && faces[j].origVt[q] == from)
    {
      RetargetCorner(faces, sel, from, to, j, q);
    }
  }

  /** Pointing corners loaded with UV `i` at a clone of it keeps every
      corner on its loaded point. */
  lemma {:induction false} RetargetKeepsPoints(uvs: seq<Uv>, faces: seq<FaceRec>, faces': seq<FaceRec>, i: int, c: Uv)
    requires AllWellFormed(faces) && UvRefsIn(faces, |uvs|) && CornersKeepPoints(uvs, faces)
    requires 1 <= i <= |uvs| && SamePoint(c, uvs[i - 1])
    requires Retargeted(faces, faces', i, |uvs| + 1) && AllWellFormed(faces')
    ensures UvRefsIn(faces', |uvs| + 1) && CornersKeepPoints(uvs + [c], faces')
  {
    var uvs' := uvs + [c];
    assert UvRefsIn(faces', |uvs'|);
    forall j, q | 0 <= j < |faces'| && 0 <= q < |faces'[j].vt|
      ensures SamePoint(uvs'[faces'[j].vt[q] - 1], uvs'[faces'[j].origVt[q] - 1])
    {
      if faces'[j].vt[q] != faces[j].vt[q] {
        assert uvs'[faces'[j].vt[q] - 1] == c;
      } else {
        assert SamePoint(uvs[faces[j].vt[q] - 1], uvs[faces[j].origVt[q] - 1]);
      }
    }
  }

  /** A visit keeps the invariant and changes only what a pass may. */
  lemma {:induction false} VisitKeeps(uvs: seq<Uv>, faces: seq<FaceRec>, sel: seq<nat>,
                                       ts: seq<RectangleTransform>, i: int, all: set<RectangleTransform>)
    requires Inv(uvs, faces, all) && 1 <= i <= |uvs|
    requires forall t :: t in ts ==> t in all
    ensures var (uvs', faces') := Visit(uvs, faces, sel, ts, i);
      Inv(uvs', faces', all) && Grows(uvs, uvs') && SameShape(faces, faces')
  {
    var u := uvs[i - 1];
    var ft := FirstContaining(ts, u);
    if ft.Some? {
      var t := ft.value;
      if u.transformed {
        var c := TransformUv(Clone(u, |uvs| + 1), t);
        assert u.index == i;
        var (list, k) := CloneOriginalInto(u, uvs);
        assert list[k - 1 := TransformUv(list[k - 1], t)] == uvs + [c];
        assert Visit(uvs, faces, sel, ts, i) == (uvs + [c], ObjWriter.RenumberStep(faces, sel, ObjWriter.TexCoords, i, i, |uvs| + 1));
        CloneExplained(uvs, i, t, all);
        RetargetIsRetargeted(faces, sel, i, |uvs| + 1);
        RetargetKeepsPoints(uvs, faces, ObjWriter.RenumberStep(faces, sel, ObjWriter.TexCoords, i, i, |uvs| + 1), i, c);
      } else {
        MoveKeeps(uvs, faces, i, t, all);
      }
    }
  }

  /** The visits of the UVs `idx`, in order. */
  function VisitAll(uvs: seq<Uv>, faces: seq<FaceRec>, sel: seq<nat>, ts: seq<RectangleTransform>, idx: seq<int>): (r: (seq<Uv>, seq<FaceRec>))
    requires AllWellFormed(faces)
    requires forall k :: 0 <= k < |idx| ==> 1 <= idx[k] <= |uvs|
    ensures |uvs| <= |r.0| && |r.1| == |faces| && AllWellFormed(r.1)
    decreases |idx|
  {
    if idx == [] then (uvs, faces)
    else
      var (uvs1, faces1) := Visit(uvs, faces, sel, ts, idx[0]);
      assert |uvs| <= |uvs1| && |faces1| == |faces| && AllWellFormed(faces1) by {
        VisitShape(uvs, faces, sel, ts, idx[0]);
      }
      VisitAll(uvs1, faces1, sel, ts, idx[1..])
  }

  /** A visit only grows the UV list and keeps faces well formed. */
  lemma {:induction false} VisitShape(uvs: seq<Uv>, faces: seq<FaceRec>, sel: seq<nat>, ts: seq<RectangleTransform>, i: int)
    requires AllWellFormed(faces) && 1 <= i <= |uvs|
    ensures var r := Visit(uvs, faces, sel, ts, i);
      |uvs| <= |r.0| && |r.1| == |faces| && AllWellFormed(r.1)
  {
  }

  lemma {:induction false} VisitAllKeeps(uvs: seq<Uv>, faces: seq<FaceRec>, sel: seq<nat>,
                                          ts: seq<RectangleTransform>, idx: seq<int>, all: set<RectangleTransform>)
    requires Inv(uvs, faces, all)
    requires forall k :: 0 <= k < |idx| ==> 1 <= idx[k] <= |uvs|
    requires forall t :: t in ts ==> t in all
    ensures var (uvs', faces') := VisitAll(uvs, faces, sel, ts, idx);
      Inv(uvs', faces', all) && Grows(uvs, uvs') && SameShape(faces, faces')
    decreases |idx|
  {
    if idx != [] {
      var (uvs1, faces1) := Visit(uvs, faces, sel, ts, idx[0]);
      VisitKeeps(uvs, faces, sel, ts, idx[0], all);
      VisitAllKeeps(uvs1, faces1, sel, ts, idx[1..], all);
      var (uvs2, faces2) := VisitAll(uvs1, faces1, sel, ts, idx[1..]);
      GrowsTrans(uvs, uvs1, uvs2);
      SameShapeTrans(faces, faces1, faces2);
    }
  }

  /** Faces outside the selection are left as they were by every visit. */
  lemma {:induction false} VisitAllOutside(uvs: seq<Uv>, faces: seq<FaceRec>, sel: seq<nat>,
                                            ts: seq<RectangleTransform>, idx: seq<int>, j: nat)
    requires AllWellFormed(faces) && j < |faces| && j !in sel
    requires forall k :: 0 <= k < |idx| ==> 1 <= idx[k] <= |uvs|
    ensures VisitAll(uvs, faces, sel, ts, idx).1[j] == faces[j]
    decreases |idx|
  {
    if idx != [] {
      var (uvs1, faces1) := Visit(uvs, faces, sel, ts, idx[0]);
      VisitShape(uvs, faces, sel, ts, idx[0]);
      VisitAllOutside(uvs1, faces1, sel, ts, idx[1..], j);
    }
  }

  /** `m` names, in `uvs'`, a clone of `u`'s original point moved by `t`. */
  predicate CloneOf(uvs': seq<Uv>, m: int, u: Uv, t: RectangleTransform)
  {
    1 <= m <= |uvs'| && MovedBy(uvs'[m - 1], u.originalX, u.originalY, t) && SamePoint(uvs'[m - 1], u)
  }

  /** What the visits did to UV `u`, at position `n` of a list that had
      `lo` entries before them: nothing when no transform holds its point;
      moved in place when no earlier extent had moved it; otherwise left
      as it was, with a moved clone of its point among the appended UVs. */
  predicate VisitedUv(u: Uv, uvs': seq<Uv>, n: int, lo: int, ts: seq<RectangleTransform>)
    requires 0 <= n < lo <= |uvs'|
  {
    match FirstContaining(ts, u)
    case None => uvs'[n] == u
    case Some(t) =>
      if u.transformed then uvs'[n] == u && exists m :: lo < m <= |uvs'| && CloneOf(uvs', m, u, t)
      else MovedBy(uvs'[n], u.x, u.y, t) && SamePoint(uvs'[n], u) && uvs'[n].index == u.index
  }

  /** The visits of distinct UVs `idx`: a UV not among them is left as it
      was, and each of them is visited as `VisitedUv` says. */
  lemma {:induction false} VisitAllUv(uvs: seq<Uv>, faces: seq<FaceRec>, sel: seq<nat>,
                                       ts: seq<RectangleTransform>, idx: seq<int>, n: int)
    requires AllWellFormed(faces) && ObjWriter.NoDup(idx) && 0 <= n < |uvs|
    requires forall k :: 0 <= k < |idx| ==> 1 <= idx[k] <= |uvs|
    ensures var uvs' := VisitAll(uvs, faces, sel, ts, idx).0;
      ((n + 1) !in idx ==> uvs'[n] == uvs[n])
      && ((n + 1) in idx ==> VisitedUv(uvs[n], uvs', n, |uvs|, ts))
    decreases |idx|
  {
    if idx != [] {
      var (uvs1, faces1) := Visit(uvs, faces, sel, ts, idx[0]);
      VisitEffect(uvs, faces, sel, ts, idx[0]);
      VisitShape(uvs, faces, sel, ts, idx[0]);
      var rest := idx[1..];
      assert forall k :: 0 <= k < |rest| ==> rest[k] == idx[k + 1];
      assert ObjWriter.NoDup(rest);
      assert forall x :: x in idx <==> x == idx[0] || x in rest;
      var uvs2 := VisitAll(uvs1, faces1, sel, ts, rest).0;
      assert VisitAll(uvs, faces, sel, ts, idx).0 == uvs2;
      VisitAllUv(uvs1, faces1, sel, ts, rest, n);
      if n + 1 == idx[0] {
        assert (n + 1) !in rest;
        var u := uvs[n];
        if FirstContaining(ts, u).Some? && u.transformed {
          VisitAllUv(uvs1, faces1, sel, ts, rest, |uvs|);
          assert (|uvs| + 1) !in rest;
          assert uvs2[|uvs|] == uvs1[|uvs|];
          assert CloneOf(uvs2, |uvs| + 1, u, FirstContaining(ts, u).value);
        }
      } else {
        assert uvs1[n] == uvs[n];
        if (n + 1) in rest {
          var u := uvs[n];
          if FirstContaining(ts, u).Some? && u.transformed {
            var t := FirstContaining(ts, u).value;
            var m :| |uvs1| < m <= |uvs2| && CloneOf(uvs2, m, u, t);
            assert |uvs| < m;
          }
        }
      }
    }
  }

  /** Corner `q` of face `j` may be pointed at a clone in an extent with
      transforms `ts`: the face is selected, the corner is the first loaded
      with its UV, and that UV was moved by an earlier extent and lies in a
      rectangle of this one. */
  predicate Retargetable(uvs: seq<Uv>, faces: seq<FaceRec>, sel: seq<nat>, ts: seq<RectangleTransform>, j: int, q: int)
    requires 0 <= j < |faces| && 0 <= q < |faces[j].origVt|
  {
    var key := faces[j].origVt[q];
    j in sel && ObjWriter.FirstLoaded(faces[j], ObjWriter.TexCoords, q)
    && 1 <= key <= |uvs| && uvs[key - 1].transformed && FirstContaining(ts, uvs[key - 1]).Some?
  }

  /** Corner `q` of face `j` was pointed, by the visit of its loaded UV, at
      a moved clone of that UV's point appended by the visits. */
  predicate CornerMoved(uvs: seq<Uv>, faces: seq<FaceRec>, uvs': seq<Uv>, faces': seq<FaceRec>,
                        sel: seq<nat>, ts: seq<RectangleTransform>, idx: seq<int>, j: int, q: int)
    requires 0 <= j < |faces| && 0 <= q < |faces[j].origVt|
  {
    var key := faces[j].origVt[q];
    Retargetable(uvs, faces, sel, ts, j, q) && key in idx
    && j < |faces'| && q < |faces'[j].vt| && |uvs| < faces'[j].vt[q]
    && CloneOf(uvs', faces'[j].vt[q], uvs[key - 1], FirstContaining(ts, uvs[key - 1]).value)
  }

  /** The visits of distinct UVs `idx`, seen from one face corner: the
      corner keeps its UV or was moved to a clone as `CornerMoved` says. */
  lemma {:induction false} VisitAllCorner(uvs: seq<Uv>, faces: seq<FaceRec>, sel: seq<nat>,
                                           ts: seq<RectangleTransform>, idx: seq<int>, j: int, q: int)
    requires AllWellFormed(faces) && UvsIndexed(uvs) && ObjWriter.NoDup(idx)
    requires forall k :: 0 <= k < |idx| ==> 1 <= idx[k] <= |uvs|
    requires 0 <= j < |faces| && 0 <= q < |faces[j].vt|
    ensures var (uvs', faces') := VisitAll(uvs, faces, sel, ts, idx);
      q < |faces'[j].vt|
      && (faces'[j].vt[q] == faces[j].vt[q] || CornerMoved(uvs, faces, uvs', faces', sel, ts, idx, j, q))
    decreases |idx|
  {
    VisitAllShape(uvs, faces, sel, ts, idx);
    if idx != [] {
      var (uvs1, faces1) := Visit(uvs, faces, sel, ts, idx[0]);
      VisitStep(uvs, faces, sel, ts, idx[0], j, q);
      var rest := idx[1..];
      RestNoDup(idx);
      var (uvs2, faces2) := VisitAll(uvs1, faces1, sel, ts, rest);
      assert VisitAll(uvs, faces, sel, ts, idx) == (uvs2, faces2);
      VisitAllCorner(uvs1, faces1, sel, ts, rest, j, q);
      if |uvs| < |uvs1| {
        VisitAllUv(uvs1, faces1, sel, ts, rest, |uvs|);
      }
      CornerCombine(uvs, faces, sel, ts, idx, uvs1, faces1, uvs2, faces2, j, q);
    }
  }

  /** A retargetable corner still on its loaded UV, which is among the
      distinct UVs `idx`, is moved by their visits. */
  lemma {:induction false} VisitAllRetargets(uvs: seq<Uv>, faces: seq<FaceRec>, sel: seq<nat>,
                                              ts: seq<RectangleTransform>, idx: seq<int>, j: int, q: int)
    requires AllWellFormed(faces) && UvsIndexed(uvs) && ObjWriter.NoDup(idx)
    requires forall k :: 0 <= k < |idx| ==> 1 <= idx[k] <= |uvs|
    requires 0 <= j < |faces| && 0 <= q < |faces[j].vt|
    requires Retargetable(uvs, faces, sel, ts, j, q) && faces[j].vt[q] == faces[j].origVt[q] && faces[j].origVt[q] in idx
    ensures var faces' := VisitAll(uvs, faces, sel, ts, idx).1;
      q < |faces'[j].vt| && faces'[j].vt[q] != faces[j].vt[q]
    decreases |idx|
  {
    VisitAllShape(uvs, faces, sel, ts, idx);
    var (uvs1, faces1) := Visit(uvs, faces, sel, ts, idx[0]);
    VisitStep(uvs, faces, sel, ts, idx[0], j, q);
    var rest := idx[1..];
    RestNoDup(idx);
    var (uvs2, faces2) := VisitAll(uvs1, faces1, sel, ts, rest);
    assert VisitAll(uvs, faces, sel, ts, idx) == (uvs2, faces2);
    if faces[j].origVt[q] == idx[0] {
      VisitAllCorner(uvs1, faces1, sel, ts, rest, j, q);
    } else {
      StillRetargetable(uvs, faces, sel, ts, idx, uvs1, faces1, j, q);
      VisitAllRetargets(uvs1, faces1, sel, ts, rest, j, q);
    }
  }

  lemma {:induction false} RestNoDup(idx: seq<int>)
    requires ObjWriter.NoDup(idx) && idx != []
    ensures ObjWriter.NoDup(idx[1..]) && idx[0] !in idx[1..]
  {
    var rest := idx[1..];
    assert forall k :: 0 <= k < |rest| ==> rest[k] == idx[k + 1];
    forall p | 0 <= p < |rest| ensures rest[p] != idx[0] {
      assert rest[p] == idx[p + 1];
    }
  }

  /** What the visit of UV `i` does, seen from corner `q` of face `j` and
      from the UVs: other UVs stay, indices stay positions, and the corner
      keeps its UV unless it is retargetable and loaded with `i`, in which
      case it is pointed at the moved clone appended as UV `|uvs| + 1`; a
      corner of that kind still on its loaded UV is pointed there. */
  predicate StepFacts(uvs: seq<Uv>, faces: seq<FaceRec>, sel: seq<nat>, ts: seq<RectangleTransform>, i: int,
                      uvs1: seq<Uv>, faces1: seq<FaceRec>, j: int, q: int)
    requires 1 <= i <= |uvs| && 0 <= j < |faces| && 0 <= q < |faces[j].vt| && |faces[j].origVt| == |faces[j].vt|
  {
    UvsIndexed(uvs1) && |uvs| <= |uvs1|
    && (forall n :: 0 <= n < |uvs| && n != i - 1 ==> uvs1[n] == uvs[n])
    && |faces1| == |faces| && faces1[j].origVt == faces[j].origVt && |faces1[j].vt| == |faces[j].vt|
    && (faces1[j].vt[q] == faces[j].vt[q]
        || (Retargetable(uvs, faces, sel, ts, j, q) && faces[j].origVt[q] == i && faces1[j].vt[q] == |uvs| + 1
            && CloneOf(uvs1, |uvs| + 1, uvs[i - 1], FirstContaining(ts, uvs[i - 1]).value)))
    && (Retargetable(uvs, faces, sel, ts, j, q) && faces[j].origVt[q] == i && faces[j].vt[q] == i
        ==> faces1[j].vt[q] == |uvs| + 1)
  }

  lemma {:induction false} VisitStep(uvs: seq<Uv>, faces: seq<FaceRec>, sel: seq<nat>, ts: seq<RectangleTransform>, i: int, j: int, q: int)
    requires AllWellFormed(faces) && UvsIndexed(uvs) && 1 <= i <= |uvs| && 0 <= j < |faces| && 0 <= q < |faces[j].vt|
    ensures var (uvs1, faces1) := Visit(uvs, faces, sel, ts, i);
      StepFacts(uvs, faces, sel, ts, i, uvs1, faces1, j, q)
  {
    VisitStepUvs(uvs, faces, sel, ts, i);
    VisitStepCorner(uvs, faces, sel, ts, i, j, q);
  }

  lemma {:induction false} VisitStepUvs(uvs: seq<Uv>, faces: seq<FaceRec>, sel: seq<nat>, ts: seq<RectangleTransform>, i: int)
    requires AllWellFormed(faces) && UvsIndexed(uvs) && 1 <= i <= |uvs|
    ensures var uvs1 := Visit(uvs, faces, sel, ts, i).0;
      UvsIndexed(uvs1) && |uvs| <= |uvs1| && forall n :: 0 <= n < |uvs| && n != i - 1 ==> uvs1[n] == uvs[n]
  {
    VisitEffect(uvs, faces, sel, ts, i);
  }

  lemma {:induction false} VisitStepCorner(uvs: seq<Uv>, faces: seq<FaceRec>, sel: seq<nat>, ts: seq<RectangleTransform>, i: int, j: int, q: int)
    requires AllWellFormed(faces) && UvsIndexed(uvs) && 1 <= i <= |uvs| && 0 <= j < |faces| && 0 <= q < |faces[j].vt|
    ensures var (uvs1, faces1) := Visit(uvs, faces, sel, ts, i);
      |uvs| <= |uvs1| && |faces1| == |faces| && faces1[j].origVt == faces[j].origVt && |faces1[j].vt| == |faces[j].vt|
      && (faces1[j].vt[q] == faces[j].vt[q]
          || (Retargetable(uvs, faces, sel, ts, j, q) && faces[j].origVt[q] == i && faces1[j].vt[q] == |uvs| + 1
              && CloneOf(uvs1, |uvs| + 1, uvs[i - 1], FirstContaining(ts, uvs[i - 1]).value)))
      && (Retargetable(uvs, faces, sel, ts, j, q) && faces[j].origVt[q] == i && faces[j].vt[q] == i
          ==> faces1[j].vt[q] == |uvs| + 1)
  {
    var u := uvs[i - 1];
    VisitEffect(uvs, faces, sel, ts, i);
    assert u.index == i;
    if FirstContaining(ts, u).Some? && u.transformed {
      CloneMovedBy(u, FirstContaining(ts, u).value, |uvs| + 1);
      if faces[j].vt[q] == i {
        assert u.index in faces[j].vt;
      }
    }
  }

  /** Combining the first visit with the rest, for one corner. */
  lemma {:induction false} CornerCombine(uvs: seq<Uv>, faces: seq<FaceRec>, sel: seq<nat>, ts: seq<RectangleTransform>, idx: seq<int>,
                                          uvs1: seq<Uv>, faces1: seq<FaceRec>, uvs2: seq<Uv>, faces2: seq<FaceRec>, j: int, q: int)
    requires ObjWriter.NoDup(idx) && idx != [] && 1 <= idx[0] <= |uvs|
    requires 0 <= j < |faces| && 0 <= q < |faces[j].vt| && |faces[j].origVt| == |faces[j].vt|
    requires StepFacts(uvs, faces, sel, ts, idx[0], uvs1, faces1, j, q)
    requires |uvs1| <= |uvs2| && (|uvs| < |uvs1| ==> uvs2[|uvs|] == uvs1[|uvs|])
    requires forall k :: 0 <= k < |idx| ==> 1 <= idx[k] <= |uvs|
    requires j < |faces2| && q < |faces2[j].vt|
    requires faces2[j].vt[q] == faces1[j].vt[q] || CornerMoved(uvs1, faces1, uvs2, faces2, sel, ts, idx[1..], j, q)
    ensures faces2[j].vt[q] == faces[j].vt[q] || CornerMoved(uvs, faces, uvs2, faces2, sel, ts, idx, j, q)
  {
    RestNoDup(idx);
    var key := faces[j].origVt[q];
    if faces1[j].vt[q] != faces[j].vt[q] {
      assert faces2[j].vt[q] == |uvs| + 1;
    } else if faces2[j].vt[q] != faces1[j].vt[q] {
      var p :| 0 <= p < |idx| - 1 && idx[1..][p] == key;
      assert idx[p + 1] == key && key != idx[0];
      assert uvs1[key - 1] == uvs[key - 1];
      assert ObjWriter.FirstLoaded(faces1[j], ObjWriter.TexCoords, q) == ObjWriter.FirstLoaded(faces[j], ObjWriter.TexCoords, q);
    }
  }

  /** A corner the first visit leaves alone stays retargetable for the rest. */
  lemma {:induction false} StillRetargetable(uvs: seq<Uv>, faces: seq<FaceRec>, sel: seq<nat>, ts: seq<RectangleTransform>, idx: seq<int>,
                                              uvs1: seq<Uv>, faces1: seq<FaceRec>, j: int, q: int)
    requires idx != [] && 1 <= idx[0] <= |uvs|
    requires 0 <= j < |faces| && 0 <= q < |faces[j].vt| && |faces[j].origVt| == |faces[j].vt|
    requires StepFacts(uvs, faces, sel, ts, idx[0], uvs1, faces1, j, q)
    requires Retargetable(uvs, faces, sel, ts, j, q) && faces[j].vt[q] == faces[j].origVt[q]
    requires faces[j].origVt[q] in idx && faces[j].origVt[q] != idx[0]
    ensures Retargetable(uvs1, faces1, sel, ts, j, q) && faces1[j].vt[q] == faces1[j].origVt[q]
    ensures faces1[j].origVt[q] in idx[1..]
  {
    var key := faces[j].origVt[q];
    assert uvs1[key - 1] == uvs[key - 1];
    assert ObjWriter.FirstLoaded(faces1[j], ObjWriter.TexCoords, q) == ObjWriter.FirstLoaded(faces[j], ObjWriter.TexCoords, q);
    var p :| 0 <= p < |idx| && idx[p] == key;
    assert p != 0 && idx[1..][p - 1] == key;
  }

  /** The visits change current UV indices only. */
  lemma {:induction false} VisitAllShape(uvs: seq<Uv>, faces: seq<FaceRec>, sel: seq<nat>, ts: seq<RectangleTransform>, idx: seq<int>)
    requires AllWellFormed(faces)
    requires forall k :: 0 <= k < |idx| ==> 1 <= idx[k] <= |uvs|
    ensures SameShape(faces, VisitAll(uvs, faces, sel, ts, idx).1)
    decreases |idx|
  {
    if idx != [] {
      var (uvs1, faces1) := Visit(uvs, faces, sel, ts, idx[0]);
      VisitEffect(uvs, faces, sel, ts, idx[0]);
      VisitShape(uvs, faces, sel, ts, idx[0]);
      VisitAllShape(uvs1, faces1, sel, ts, idx[1..]);
      SameShapeTrans(faces, faces1, VisitAll(uvs1, faces1, sel, ts, idx[1..]).1);
    }
  }

  /* ---------- one extent ---------- */

  /** The face is selected for the extent: its scan answers true. */
  predicate Picked(vs: seq<Vertex>, f: FaceRec, e: Extent)
  {
    AnyInExtent(f.v, vs, e) == Success(true)
  }

  /** The positions of the faces with a vertex in the extent, in order. The
      query fails when the scan of one of the faces fails. */
  function FacesIn(vs: seq<Vertex>, faces: seq<FaceRec>, e: Extent, n: nat): (r: Result<seq<nat>>)
    requires n <= |faces|
    ensures r.Failure? <==> exists j :: 0 <= j < n && AnyInExtent(faces[j].v, vs, e).Failure?
    ensures r.Success? ==> forall j :: 0 <= j < n ==> (j in r.value <==> Picked(vs, faces[j], e))
    ensures r.Success? ==> (forall k :: 0 <= k < |r.value| ==> r.value[k] < n) && Increasing(r.value)
  {
    if n == 0 then Success([])
    else
      var prev := FacesIn(vs, faces, e, n - 1);
      var scan := AnyInExtent(faces[n - 1].v, vs, e);
      if prev.Failure? then prev
      else if scan.Failure? then Failure(scan.error)
      else
        FacesInStep(vs, faces, e, n, prev.value, scan.value);
        if scan.value then
          IncreasingSnoc(prev.value, n - 1);
          var grown: seq<nat> := prev.value + [n - 1];
          Success(grown)
        else prev
  }

  /** The selection of the first `n` faces from that of the first `n - 1`. */
  lemma {:induction false} FacesInStep(vs: seq<Vertex>, faces: seq<FaceRec>, e: Extent, n: nat, prev: seq<nat>, b: bool)
    requires 0 < n <= |faces| && AnyInExtent(faces[n - 1].v, vs, e) == Success(b)
    requires forall j :: 0 <= j < n - 1 ==> (j in prev <==> Picked(vs, faces[j], e))
    requires forall k :: 0 <= k < |prev| ==> prev[k] < n - 1
    ensures var r := if b then prev + [n - 1] else prev;
      forall j :: 0 <= j < n ==> (j in r <==> Picked(vs, faces[j], e))
  {
    var r := if b then prev + [n - 1] else prev;
    forall j | 0 <= j < n ensures j in r <==> Picked(vs, faces[j], e) {
      if j == n - 1 {
        assert j !in prev;
      }
    }
  }

  /** One extent's pass. It fails, before changing anything, when the scan
      of a face reaches a vertex index the list does not have before a
      vertex in the extent, or when a selected face names a UV the list
      does not have. */
  function TransformExtent(vs: seq<Vertex>, uvs: seq<Uv>, faces: seq<FaceRec>, et: ExtentTransforms): (r: Result<(seq<Uv>, seq<FaceRec>)>)
    requires AllWellFormed(faces)
    ensures (exists j :: 0 <= j < |faces| && AnyInExtent(faces[j].v, vs, et.extent).Failure?) ==> r.Failure?
    ensures (forall j :: 0 <= j < |faces| ==> AnyInExtent(faces[j].v, vs, et.extent).Success?) && UvRefsIn(faces, |uvs|) ==> r.Success?
    ensures r.Success? ==> (|uvs| <= |r.value.0| && |r.value.1| == |faces| && AllWellFormed(r.value.1))
  {
    match FacesIn(vs, faces, et.extent, |faces|)
    case Failure(m) => Failure(m)
    case Success(sel) =>
      var idx := ObjWriter.Required(faces, sel, ObjWriter.TexCoords);
      if exists k :: 0 <= k < |idx| && !(1 <= idx[k] <= |uvs|) then
        assert !UvRefsIn(faces, |uvs|) by { RequiredFromFaces(faces, sel, uvs); }
        Failure("ArgumentOutOfRangeException: texture vertex index")
      else Success(VisitAll(uvs, faces, sel, et.transforms, idx))
  }

  /** The UV indices selected faces use are valid when every face's are. */
  lemma {:induction false} RequiredFromFaces(faces: seq<FaceRec>, sel: seq<nat>, uvs: seq<Uv>)
    requires ChunkIn(sel, |faces|)
    ensures var idx := ObjWriter.Required(faces, sel, ObjWriter.TexCoords);
      UvRefsIn(faces, |uvs|) ==> forall k :: 0 <= k < |idx| ==> 1 <= idx[k] <= |uvs|
  {
    if UvRefsIn(faces, |uvs|) {
      forall j, x | 0 <= j < |sel| && x in ObjWriter.Cur(faces[sel[j]], ObjWriter.TexCoords) ensures 1 <= x <= |uvs| {
        var c :| 0 <= c < |faces[sel[j]].vt| && faces[sel[j]].vt[c] == x;
      }
      ObjWriter.RequiredIn(faces, sel, ObjWriter.TexCoords, |uvs|);
    }
  }

  /** What an extent's pass does to each UV it had: a UV no face with a
      vertex in the extent uses is left as it was; one such a face uses is
      visited as `VisitedUv` says, by the first of the extent's transforms
      whose rectangle holds its original point. */
  lemma {:induction false} TransformExtentUv(vs: seq<Vertex>, uvs: seq<Uv>, faces: seq<FaceRec>, et: ExtentTransforms, n: int)
    requires AllWellFormed(faces) && 0 <= n < |uvs| && TransformExtent(vs, uvs, faces, et).Success?
    ensures var uvs' := TransformExtent(vs, uvs, faces, et).value.0;
      var used := exists j :: 0 <= j < |faces| && Picked(vs, faces[j], et.extent) && (n + 1) in faces[j].vt;
      n < |uvs'|
      && (!used ==> uvs'[n] == uvs[n])
      && (used ==> VisitedUv(uvs[n], uvs', n, |uvs|, et.transforms))
  {
    var sel := FacesIn(vs, faces, et.extent, |faces|).value;
    var idx := ObjWriter.Required(faces, sel, ObjWriter.TexCoords);
    assert TransformExtent(vs, uvs, faces, et) == Success(VisitAll(uvs, faces, sel, et.transforms, idx));
    RequiredUse(vs, faces, et.extent, sel, n + 1);
    VisitAllUv(uvs, faces, sel, et.transforms, idx, n);
  }

  /** What an extent's pass does to each face corner: it keeps its UV, or
      it was pointed at a moved clone of its loaded UV's point as
      `CornerMoved` says; and a corner that may be retargeted and still
      names its loaded UV is pointed at such a clone. */
  lemma {:induction false} TransformExtentCorner(vs: seq<Vertex>, uvs: seq<Uv>, faces: seq<FaceRec>, et: ExtentTransforms, j: int, q: int)
    requires AllWellFormed(faces) && UvsIndexed(uvs) && TransformExtent(vs, uvs, faces, et).Success?
    requires 0 <= j < |faces| && 0 <= q < |faces[j].vt|
    ensures var (uvs', faces') := TransformExtent(vs, uvs, faces, et).value;
      var sel := FacesIn(vs, faces, et.extent, |faces|).value;
      q < |faces'[j].vt|
      && (faces'[j].vt[q] == faces[j].vt[q]
          || CornerMoved(uvs, faces, uvs', faces', sel, et.transforms, ObjWriter.Required(faces, sel, ObjWriter.TexCoords), j, q))
      && (Retargetable(uvs, faces, sel, et.transforms, j, q) && faces[j].vt[q] == faces[j].origVt[q]
          ==> faces'[j].vt[q] != faces[j].vt[q])
  {
    var sel := FacesIn(vs, faces, et.extent, |faces|).value;
    var idx := ObjWriter.Required(faces, sel, ObjWriter.TexCoords);
    assert TransformExtent(vs, uvs, faces, et) == Success(VisitAll(uvs, faces, sel, et.transforms, idx));
    VisitAllCorner(uvs, faces, sel, et.transforms, idx, j, q);
    if Retargetable(uvs, faces, sel, et.transforms, j, q) && faces[j].vt[q] == faces[j].origVt[q] {
      var k :| 0 <= k < |sel| && sel[k] == j;
      assert faces[j].vt[q] in ObjWriter.Cur(faces[sel[k]], ObjWriter.TexCoords);
      VisitAllRetargets(uvs, faces, sel, et.transforms, idx, j, q);
    }
  }

  /** A UV index is among those the selected faces use exactly when a face
      with a vertex in the extent uses it. */
  lemma {:induction false} RequiredUse(vs: seq<Vertex>, faces: seq<FaceRec>, e: Extent, sel: seq<nat>, x: int)
    requires FacesIn(vs, faces, e, |faces|) == Success(sel)
    ensures ChunkIn(sel, |faces|)
    ensures x in ObjWriter.Required(faces, sel, ObjWriter.TexCoords)
            <==> exists j :: 0 <= j < |faces| && Picked(vs, faces[j], e) && x in faces[j].vt
  {
    if exists j :: 0 <= j < |faces| && Picked(vs, faces[j], e) && x in faces[j].vt {
      var j :| 0 <= j < |faces| && Picked(vs, faces[j], e) && x in faces[j].vt;
      assert j in sel;
      var k :| 0 <= k < |sel| && sel[k] == j;
      assert x in ObjWriter.Cur(faces[sel[k]], ObjWriter.TexCoords);
    }
    if x in ObjWriter.Required(faces, sel, ObjWriter.TexCoords) {
      var k :| 0 <= k < |sel| && x in ObjWriter.Cur(faces[sel[k]], ObjWriter.TexCoords);
      assert sel[k] in sel;
      assert Picked(vs, faces[sel[k]], e);
    }
  }

  /** The whole pass, extent by extent; the first failure stops it. */
  function TransformAll(vs: seq<Vertex>, uvs: seq<Uv>, faces: seq<FaceRec>, ets: seq<ExtentTransforms>): (r: Result<(seq<Uv>, seq<FaceRec>)>)
    requires AllWellFormed(faces)
    ensures r.Success? ==> (|uvs| <= |r.value.0| && |r.value.1| == |faces| && AllWellFormed(r.value.1))
    decreases |ets|
  {
    if ets == [] then Success((uvs, faces))
    else
      match TransformExtent(vs, uvs, faces, ets[0])
      case Failure(m) => Failure(m)
      case Success((uvs1, faces1)) => TransformAll(vs, uvs1, faces1, ets[1..])
  }

  /** Every transform any extent names. */
  function AllTransforms(ets: seq<ExtentTransforms>): (r: set<RectangleTransform>)
    ensures forall k, t :: 0 <= k < |ets| && t in ets[k].transforms ==> t in r
  {
    if ets == [] then {} else (set t | t in ets[0].transforms) + AllTransforms(ets[1..])
  }

  /** An extent's pass keeps the invariant, and leaves alone the faces
      without a vertex in the extent. */
  lemma {:induction false} TransformExtentKeeps(vs: seq<Vertex>, uvs: seq<Uv>, faces: seq<FaceRec>,
                                                 et: ExtentTransforms, all: set<RectangleTransform>)
    requires Inv(uvs, faces, all) && forall t :: t in et.transforms ==> t in all
    requires TransformExtent(vs, uvs, faces, et).Success?
    ensures var (uvs', faces') := TransformExtent(vs, uvs, faces, et).value;
      Inv(uvs', faces', all) && Grows(uvs, uvs') && SameShape(faces, faces')
      && forall j :: 0 <= j < |faces| && !Picked(vs, faces[j], et.extent) ==> faces'[j] == faces[j]
  {
    var sel := FacesIn(vs, faces, et.extent, |faces|).value;
    var idx := ObjWriter.Required(faces, sel, ObjWriter.TexCoords);
    VisitAllKeeps(uvs, faces, sel, et.transforms, idx, all);
    forall j | 0 <= j < |faces| && !Picked(vs, faces[j], et.extent)
      ensures VisitAll(uvs, faces, sel, et.transforms, idx).1[j] == faces[j]
    {
      VisitAllOutside(uvs, faces, sel, et.transforms, idx, j);
    }
  }

  /** The whole pass keeps the invariant: after it, every UV is its loaded
      point or that point moved by a transform whose rectangle holds it,
      no UV has lost its original point, and every face corner still names
      a UV for the point it was loaded with. */
  lemma {:induction false} TransformAllKeeps(vs: seq<Vertex>, uvs: seq<Uv>, faces: seq<FaceRec>,
                                              ets: seq<ExtentTransforms>, all: set<RectangleTransform>)
    requires Inv(uvs, faces, all) && AllTransforms(ets) <= all
    requires TransformAll(vs, uvs, faces, ets).Success?
    ensures var (uvs', faces') := TransformAll(vs, uvs, faces, ets).value;
      Inv(uvs', faces', all) && Grows(uvs, uvs') && SameShape(faces, faces')
    decreases |ets|
  {
    if ets != [] {
      TransformExtentKeeps(vs, uvs, faces, ets[0], all);
      var (uvs1, faces1) := TransformExtent(vs, uvs, faces, ets[0]).value;
      assert AllTransforms(ets[1..]) <= AllTransforms(ets);
      TransformAllKeeps(vs, uvs1, faces1, ets[1..], all);
      var (uvs2, faces2) := TransformAll(vs, uvs1, faces1, ets[1..]).value;
      GrowsTrans(uvs, uvs1, uvs2);
      SameShapeTrans(faces, faces1, faces2);
    }
  }

  /** Whatever the faces name, the pass keeps every UV's index equal to its
      position: a clone is appended with the next index. */
  lemma {:induction false} VisitAllIndexed(uvs: seq<Uv>, faces: seq<FaceRec>, sel: seq<nat>, ts: seq<RectangleTransform>, idx: seq<int>)
    requires AllWellFormed(faces) && UvsIndexed(uvs)
    requires forall k :: 0 <= k < |idx| ==> 1 <= idx[k] <= |uvs|
    ensures UvsIndexed(VisitAll(uvs, faces, sel, ts, idx).0)
    decreases |idx|
  {
    if idx != [] {
      var (uvs1, faces1) := Visit(uvs, faces, sel, ts, idx[0]);
      VisitShape(uvs, faces, sel, ts, idx[0]);
      assert UvsIndexed(uvs1);
      VisitAllIndexed(uvs1, faces1, sel, ts, idx[1..]);
    }
  }

  lemma {:induction false} TransformExtentIndexed(vs: seq<Vertex>, uvs: seq<Uv>, faces: seq<FaceRec>, et: ExtentTransforms)
    requires AllWellFormed(faces) && UvsIndexed(uvs) && TransformExtent(vs, uvs, faces, et).Success?
    ensures UvsIndexed(TransformExtent(vs, uvs, faces, et).value.0)
  {
    var sel := FacesIn(vs, faces, et.extent, |faces|).value;
    VisitAllIndexed(uvs, faces, sel, et.transforms, ObjWriter.Required(faces, sel, ObjWriter.TexCoords));
  }

  lemma {:induction false} TransformAllIndexed(vs: seq<Vertex>, uvs: seq<Uv>, faces: seq<FaceRec>, ets: seq<ExtentTransforms>)
    requires AllWellFormed(faces) && UvsIndexed(uvs) && TransformAll(vs, uvs, faces, ets).Success?
    ensures UvsIndexed(TransformAll(vs, uvs, faces, ets).value.0)
    decreases |ets|
  {
    if ets != [] {
      var (uvs1, faces1) := TransformExtent(vs, uvs, faces, ets[0]).value;
      TransformExtentIndexed(vs, uvs, faces, ets[0]);
      TransformAllIndexed(vs, uvs1, faces1, ets[1..]);
    }
  }

  /** A freshly loaded mesh meets the invariant for any transforms. */
  lemma {:induction false} LoadedInv(uvs: seq<Uv>, faces: seq<FaceRec>, all: set<RectangleTransform>)
    requires UvsIndexed(uvs) && UvRefsIn(faces, |uvs|)
    requires forall j :: 0 <= j < |faces| ==> faces[j] == Loaded(faces[j].v, faces[j].vt) && |faces[j].vt| == |faces[j].v|
    requires forall n :: 0 <= n < |uvs| ==> !uvs[n].transformed && uvs[n].x == uvs[n].originalX && uvs[n].y == uvs[n].originalY
    ensures Inv(uvs, faces, all)
  {
  }
}
