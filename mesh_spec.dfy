/** The mesh store of `PyriteLib/Obj.cs` as values: the records `processLine`
    dispatches on, the bounding boxes `updateSize` computes, the grid cell
    `populateMatrix` assigns each face to, and the cell extent `CropCube`
    crops against. The class `Obj` (module `Mesh`) is proved against these. */
module MeshSpec {
  import opened Wrappers
  import opened Vectors
  import opened Extents
  import opened Vertices
  import opened Faces
  import opened Uvs
  import opened MinMax
  import Spatial
  import Text

  /* ---------- processLine ---------- */

  /** What one line of an OBJ file is, for `processLine`. */
  datatype ObjRecord =
    | Blank
    | MtlLib(name: string)
    | VertexRecord(vertex: Vertex)
    | FaceRecord(face: FaceRec)
    | UvRecord(uv: Uv)
    | Ignored

  /** The four prefixes `processLine` acts on, matched case-sensitively. */
  predicate Handled(prefix: string)
  {
    prefix == "mtllib" || prefix == "v" || prefix == "f" || prefix == "vt"
  }

  /** `processLine` before it touches the mesh: the line split on spaces with
      empty pieces dropped, dispatched on its first token. A failure is the
      exception the source throws: a `mtllib` line without a name, or a
      record its type's `LoadFromStringArray` rejects. */
  function ParseLine(line: string): (r: Result<ObjRecord>)
    ensures r == Success(Blank) <==> Text.Tokens(line) == []
    ensures r == Success(Ignored) <==> (Text.Tokens(line) != [] && !Handled(Text.Tokens(line)[0]))
    ensures r.Success? && r.value.MtlLib? ==> |Text.Tokens(line)| >= 2 && r.value.name == Text.Tokens(line)[1]
    ensures r.Success? && r.value.VertexRecord? ==> Text.Tokens(line)[0] == "v"
    ensures r.Success? && r.value.FaceRecord? ==> (Text.Tokens(line)[0] == "f" && WellFormed(r.value.face)
      && r.value.face.origV == r.value.face.v && r.value.face.origVt == r.value.face.vt)
    ensures r.Success? && r.value.UvRecord? ==> (Text.Tokens(line)[0] == "vt" && !r.value.uv.transformed
      && r.value.uv.x == r.value.uv.originalX && r.value.uv.y == r.value.uv.originalY)
  {
    var parts := Text.Tokens(line);
    if |parts| == 0 then Success(Blank)
    else if parts[0] == "mtllib" then
      if |parts| < 2 then Failure("IndexOutOfRangeException: mtllib without a name")
      else Success(MtlLib(parts[1]))
    else if parts[0] == "v" then
      match ParseVertex(parts)
      case Failure(e) => Failure(e)
      case Success(v) => Success(VertexRecord(v))
    else if parts[0] == "f" then
      match ParseFace(parts)
      case Failure(e) => Failure(e)
      case Success(f) => Success(FaceRecord(f))
    else if parts[0] == "vt" then
      match ParseUv(parts)
      case Failure(e) => Failure(e)
      case Success(u) => Success(UvRecord(u))
    else Success(Ignored)
  }

  /** A face line as the OBJ writer prints it is read back as the same
      face, freshly loaded. */
  lemma {:induction false} FaceLineRoundTrip(f: FaceRec)
    requires |f.vt| == |f.v| >= 3
    requires Int32Indices(f.v) && Int32Indices(f.vt)
    ensures ParseLine(FaceToString(f)) == Success(FaceRecord(Loaded(f.v, f.vt)))
  {
    FaceToStringRoundTrip(f);
    var parts := Text.Tokens(FaceToString(f));
    assert parts[0] == "f";
  }

  /* ---------- LoadObj's reading loop ---------- */

  /** The lists and the material name `processLine` builds up. */
  datatype Lists = Lists(vertices: seq<Vertex>, faces: seq<FaceRec>, uvs: seq<Uv>, mtl: string)

  /** One line's effect: a vertex or UV is appended with its 1-based
      position as its index, a face is appended, and a material name
      replaces the one before. */
  function AddRecord(m: Lists, rec: ObjRecord): Lists
  {
    match rec
    case MtlLib(name) => m.(mtl := name)
    case VertexRecord(v) => m.(vertices := m.vertices + [v.(index := |m.vertices| + 1)])
    case FaceRecord(f) => m.(faces := m.faces + [f])
    case UvRecord(u) => m.(uvs := m.uvs + [u.(index := |m.uvs| + 1)])
    case _ => m
  }

  /** The lines read in order; the first line that throws stops the load. */
  function LoadLines(m: Lists, lines: seq<string>): Result<Lists>
    decreases |lines|
  {
    if lines == [] then Success(m)
    else
      match ParseLine(lines[0])
      case Failure(err) => Failure(err)
      case Success(rec) => LoadLines(AddRecord(m, rec), lines[1..])
  }

  /** What loading guarantees of the lists: vertices and UVs carry their
      1-based positions, every face is well formed and as loaded, and every
      UV is untransformed at its loaded point. */
  predicate ListsOk(m: Lists)
  {
    (forall n :: 0 <= n < |m.vertices| ==> m.vertices[n].index == n + 1)
    && (forall n :: 0 <= n < |m.uvs| ==> m.uvs[n].index == n + 1)
    && (forall n :: 0 <= n < |m.uvs| ==>
          !m.uvs[n].transformed && m.uvs[n].x == m.uvs[n].originalX && m.uvs[n].y == m.uvs[n].originalY)
    && (forall k :: 0 <= k < |m.faces| ==>
          WellFormed(m.faces[k]) && m.faces[k].v == m.faces[k].origV && m.faces[k].vt == m.faces[k].origVt)
  }

  /** `b` extends `a`: each list only had entries appended. */
  predicate Extends(a: Lists, b: Lists)
  {
    |a.vertices| <= |b.vertices| && b.vertices[..|a.vertices|] == a.vertices
    && |a.faces| <= |b.faces| && b.faces[..|a.faces|] == a.faces
    && |a.uvs| <= |b.uvs| && b.uvs[..|a.uvs|] == a.uvs
  }

  /** What `ParseLine` guarantees of a face or UV it reads. */
  predicate RecordOk(rec: ObjRecord)
  {
    (rec.FaceRecord? ==> WellFormed(rec.face) && rec.face.origV == rec.face.v && rec.face.origVt == rec.face.vt)
    && (rec.UvRecord? ==> !rec.uv.transformed && rec.uv.x == rec.uv.originalX && rec.uv.y == rec.uv.originalY)
  }

  /** Adding a parsed record keeps the guarantees and only appends. */
  lemma {:induction false} AddRecordOk(m: Lists, rec: ObjRecord)
    requires ListsOk(m) && RecordOk(rec)
    ensures ListsOk(AddRecord(m, rec)) && Extends(m, AddRecord(m, rec))
  {
    var m1 := AddRecord(m, rec);
    match rec {
      case VertexRecord(v) =>
        assert m1.vertices[|m.vertices|].index == |m.vertices| + 1;
      case UvRecord(u) =>
        assert m1.uvs[|m.uvs|].index == |m.uvs| + 1;
      case _ =>
    }
    assert m1.vertices[..|m.vertices|] == m.vertices;
    assert m1.faces[..|m.faces|] == m.faces;
    assert m1.uvs[..|m.uvs|] == m.uvs;
  }

  lemma {:induction false} ExtendsTrans(a: Lists, b: Lists, c: Lists)
    requires Extends(a, b) && Extends(b, c)
    ensures Extends(a, c)
  {
    assert c.vertices[..|a.vertices|] == c.vertices[..|b.vertices|][..|a.vertices|];
    assert c.faces[..|a.faces|] == c.faces[..|b.faces|][..|a.faces|];
    assert c.uvs[..|a.uvs|] == c.uvs[..|b.uvs|][..|a.uvs|];
  }

  /** Loading fails exactly when some line does not parse. */
  lemma {:induction false} LoadLinesFails(m: Lists, lines: seq<string>)
    ensures LoadLines(m, lines).Success? <==> forall k :: 0 <= k < |lines| ==> ParseLine(lines[k]).Success?
    decreases |lines|
  {
    if lines != [] {
      var rest := lines[1..];
      assert forall k :: 1 <= k < |lines| ==> rest[k - 1] == lines[k];
      match ParseLine(lines[0])
      case Failure(_) =>
      case Success(rec) => LoadLinesFails(AddRecord(m, rec), rest);
    }
  }

  /** Loading keeps the guarantees and only appends to the lists. */
  lemma {:induction false} LoadLinesOk(m: Lists, lines: seq<string>)
    requires ListsOk(m) && LoadLines(m, lines).Success?
    ensures ListsOk(LoadLines(m, lines).value) && Extends(m, LoadLines(m, lines).value)
    decreases |lines|
  {
    if lines == [] {
      assert m.vertices[..|m.vertices|] == m.vertices && m.faces[..|m.faces|] == m.faces && m.uvs[..|m.uvs|] == m.uvs;
    } else {
      var rec := ParseLine(lines[0]).value;
      assert RecordOk(rec);
      var m1 := AddRecord(m, rec);
      AddRecordOk(m, rec);
      LoadLinesOk(m1, lines[1..]);
      ExtendsTrans(m, m1, LoadLines(m, lines).value);
    }
  }

  /* ---------- updateSize ---------- */

  function XsOf(vs: seq<Vertex>): (r: seq<real>)
    ensures |r| == |vs| && forall k :: 0 <= k < |vs| ==> r[k] == vs[k].x
  {
    seq(|vs|, k requires 0 <= k < |vs| => vs[k].x)
  }

  function YsOf(vs: seq<Vertex>): (r: seq<real>)
    ensures |r| == |vs| && forall k :: 0 <= k < |vs| ==> r[k] == vs[k].y
  {
    seq(|vs|, k requires 0 <= k < |vs| => vs[k].y)
  }

  function ZsOf(vs: seq<Vertex>): (r: seq<real>)
    ensures |r| == |vs| && forall k :: 0 <= k < |vs| ==> r[k] == vs[k].z
  {
    seq(|vs|, k requires 0 <= k < |vs| => vs[k].z)
  }

  /** `Size`: the per-axis least and greatest vertex coordinate. */
  function BoundsOf(vs: seq<Vertex>): Extent
    requires |vs| > 0
  {
    Extent(MinOf(XsOf(vs)), MaxOf(XsOf(vs)), MinOf(YsOf(vs)), MaxOf(YsOf(vs)), MinOf(ZsOf(vs)), MaxOf(ZsOf(vs)))
  }

  /** The bounding box holds every vertex, and each of its six sides
      touches a vertex, so no smaller box holds them all. */
  lemma {:induction false} BoundsOfTight(vs: seq<Vertex>)
    requires |vs| > 0
    ensures var e := BoundsOf(vs);
      (forall k :: 0 <= k < |vs| ==> InExtent(vs[k], e))
      && (exists k :: 0 <= k < |vs| && vs[k].x == e.xMin) && (exists k :: 0 <= k < |vs| && vs[k].x == e.xMax)
      && (exists k :: 0 <= k < |vs| && vs[k].y == e.yMin) && (exists k :: 0 <= k < |vs| && vs[k].y == e.yMax)
      && (exists k :: 0 <= k < |vs| && vs[k].z == e.zMin) && (exists k :: 0 <= k < |vs| && vs[k].z == e.zMax)
  {
    MinOfBounds(XsOf(vs));
    MaxOfBounds(XsOf(vs));
    MinOfBounds(YsOf(vs));
    MaxOfBounds(YsOf(vs));
    MinOfBounds(ZsOf(vs));
    MaxOfBounds(ZsOf(vs));
  }

  function Max(a: real, b: real): real { if a >= b then a else b }

  /** `CubicalSize`: the cube with `Size`'s least corner whose side is
      `Size`'s longest side. */
  function CubicalOf(e: Extent): Extent
  {
    var side := Max(Max(e.XSize(), e.YSize()), e.ZSize());
    Extent(e.xMin, e.xMin + side, e.yMin, e.yMin + side, e.zMin, e.zMin + side)
  }

  /** The cubical box is a cube sharing the box's least corner, its side
      is one of the box's sides and no shorter than any, so it holds
      everything the box holds. */
  lemma {:induction false} CubicalOfHolds(e: Extent, v: Vertex)
    ensures var c := CubicalOf(e);
      c.xMin == e.xMin && c.yMin == e.yMin && c.zMin == e.zMin
      && c.XSize() == c.YSize() == c.ZSize()
      && c.XSize() >= e.XSize() && c.XSize() >= e.YSize() && c.XSize() >= e.ZSize()
      && (c.XSize() == e.XSize() || c.XSize() == e.YSize() || c.XSize() == e.ZSize())
      && (InExtent(v, e) ==> InExtent(v, c))
  {
  }

  /* ---------- populateMatrix ---------- */

  /** The grid dimensions, the lengths of the face matrix. */
  datatype Dims = Dims(x: int, y: int, z: int)

  predicate PositiveDims(d: Dims) { d.x > 0 && d.y > 0 && d.z > 0 }

  predicate PositiveSize(e: Extent) { e.XSize() > 0.0 && e.YSize() > 0.0 && e.ZSize() > 0.0 }

  /** One coordinate of a face's cell: `floor((c - min) * len / size)`, with
      the far boundary `len` moved into the last cell. */
  function CellIndex(c: real, min: real, size: real, len: int): int
    requires size != 0.0
  {
    var i := ((c + (0.0 - min)) * (len as real / size)).Floor;
    if i == len then i - 1 else i
  }

  /** A coordinate within the box falls in a cell of the grid, and the cell
      `[min + i * w, min + (i + 1) * w]` with `w = size / len` holds it. */
  lemma {:induction false} CellIndexWithin(c: real, min: real, size: real, len: int)
    requires size > 0.0 && len > 0 && min <= c <= min + size
    ensures var i := CellIndex(c, min, size, len);
      0 <= i < len && CellLo(min, size, len, i) <= c <= CellHi(min, size, len, i)
  {
    var w := size / len as real;
    var k := len as real / size;
    assert w * k == 1.0;
    var t := (c + (0.0 - min)) * k;
    assert t * w == c - min;
    assert 0.0 <= t <= len as real by {
      assert c - min <= size;
      assert (c - min) * k <= size * k;
      assert size * k == len as real;
    }
    var i0 := t.Floor;
    var i := CellIndex(c, min, size, len);
    assert i0 as real <= t < i0 as real + 1.0;
    assert i as real <= t <= i as real + 1.0;
    ScaleBetween(i as real, t, i as real + 1.0, w);
  }

  /** The low and high edge of cell `i` of `len` along an axis. */
  function CellLo(min: real, size: real, len: int, i: int): real
    requires len != 0
  {
    min + (size / len as real) * i as real
  }

  function CellHi(min: real, size: real, len: int, i: int): real
    requires len != 0
  {
    CellLo(min, size, len, i) + size / len as real
  }

  lemma {:induction false} ScaleBetween(a: real, t: real, b: real, w: real)
    requires a <= t <= b && w > 0.0
    ensures w * a <= t * w <= w * b
  {
  }

  /** The first vertex of a face, the one `populateMatrix` places it by. */
  predicate FirstVertexIn(f: FaceRec, vertexCount: int)
  {
    |f.v| > 0 && 1 <= f.v[0] <= vertexCount
  }

  /** The cell `populateMatrix` puts a face in, or `None` where the source
      throws: a first vertex index outside the vertex list, a cell outside
      the matrix, or a box with an empty side (where the source's
      floating-point ratio is infinite and its integer cast undefined). */
  function CellOf(vs: seq<Vertex>, f: FaceRec, e: Extent, d: Dims): (r: Option<Dims>)
    ensures r.Some? ==> 0 <= r.value.x < d.x && 0 <= r.value.y < d.y && 0 <= r.value.z < d.z
  {
    if !FirstVertexIn(f, |vs|) || !PositiveSize(e) then None
    else
      var p := vs[f.v[0] - 1];
      var c := Dims(CellIndex(p.x, e.xMin, e.XSize(), d.x),
                    CellIndex(p.y, e.yMin, e.YSize(), d.y),
                    CellIndex(p.z, e.zMin, e.ZSize(), d.z));
      if 0 <= c.x < d.x && 0 <= c.y < d.y && 0 <= c.z < d.z then Some(c) else None
  }

  /** The positions, below `n`, of the faces placed in cell `c`, in order. */
  function CellFaces(vs: seq<Vertex>, faces: seq<FaceRec>, e: Extent, d: Dims, n: nat, c: Dims): seq<nat>
    requires n <= |faces|
  {
    if n == 0 then []
    else CellFaces(vs, faces, e, d, n - 1, c) + (if CellOf(vs, faces[n - 1], e, d) == Some(c) then [n - 1] else [])
  }

  /** Each face lies in exactly the cell `CellOf` names, once, and every
      cell lists its faces in mesh order. */
  lemma {:induction false} CellFacesMembers(vs: seq<Vertex>, faces: seq<FaceRec>, e: Extent, d: Dims, n: nat, c: Dims)
    requires n <= |faces|
    ensures forall k :: k in CellFaces(vs, faces, e, d, n, c) <==> 0 <= k < n && CellOf(vs, faces[k], e, d) == Some(c)
    ensures Increasing(CellFaces(vs, faces, e, d, n, c))
  {
    if n > 0 {
      CellFacesMembers(vs, faces, e, d, n - 1, c);
      var s0 := CellFaces(vs, faces, e, d, n - 1, c);
      var s := CellFaces(vs, faces, e, d, n, c);
      if CellOf(vs, faces[n - 1], e, d) == Some(c) {
        assert s == s0 + [n - 1];
        IncreasingSnoc(s0, n - 1);
      } else {
        assert s == s0;
      }
    }
  }

  /* ---------- CropCube's cell extent ---------- */

  /** The extent of cell (`cx`, `cy`, `cz`): one grid step per axis. */
  function CellExtent(e: Extent, d: Dims, cx: int, cy: int, cz: int): Extent
    requires d.x != 0 && d.y != 0 && d.z != 0
  {
    Extent(CellLo(e.xMin, e.XSize(), d.x, cx), CellHi(e.xMin, e.XSize(), d.x, cx),
           CellLo(e.yMin, e.YSize(), d.y, cy), CellHi(e.yMin, e.YSize(), d.y, cy),
           CellLo(e.zMin, e.ZSize(), d.z, cz), CellHi(e.zMin, e.ZSize(), d.z, cz))
  }

  /** The cell `populateMatrix` puts a face in is a cell whose extent, as
      `CropCube` computes it, holds the face's first vertex. */
  lemma {:induction false} FirstVertexInCell(vs: seq<Vertex>, f: FaceRec, e: Extent, d: Dims)
    requires PositiveSize(e) && PositiveDims(d) && FirstVertexIn(f, |vs|)
    requires InExtent(vs[f.v[0] - 1], e)
    ensures CellOf(vs, f, e, d).Some?
    ensures var c := CellOf(vs, f, e, d).value;
      InExtent(vs[f.v[0] - 1], CellExtent(e, d, c.x, c.y, c.z))
  {
    var p := vs[f.v[0] - 1];
    CellIndexWithin(p.x, e.xMin, e.XSize(), d.x);
    CellIndexWithin(p.y, e.yMin, e.YSize(), d.y);
    CellIndexWithin(p.z, e.zMin, e.ZSize(), d.z);
  }

  /* ---------- LoadObj's partition ---------- */

  /** The box `LoadObj` partitions by: `CubicalSize` when cubes are forced,
      `Size` otherwise. */
  function Box(vs: seq<Vertex>, cubical: bool): Extent
    requires |vs| > 0
  {
    if cubical then CubicalOf(BoundsOf(vs)) else BoundsOf(vs)
  }

  /** Every face has a cell: what `populateMatrix` needs not to throw. */
  predicate AllPlaced(vs: seq<Vertex>, faces: seq<FaceRec>, box: Extent, d: Dims)
  {
    forall k :: 0 <= k < |faces| ==> CellOf(vs, faces[k], box, d).Some?
  }

  /** With a grid of positive lengths, a box with no empty side and every
      face's first vertex in the list, every face of a loaded mesh gets a
      cell, and that cell's extent holds the face's first vertex. */
  lemma {:induction false} EveryFacePlaced(vs: seq<Vertex>, faces: seq<FaceRec>, cubical: bool, d: Dims)
    requires |vs| > 0 && PositiveDims(d) && PositiveSize(Box(vs, cubical))
    requires forall k :: 0 <= k < |faces| ==> FirstVertexIn(faces[k], |vs|)
    ensures AllPlaced(vs, faces, Box(vs, cubical), d)
    ensures forall k :: 0 <= k < |faces| ==>
      var c := CellOf(vs, faces[k], Box(vs, cubical), d).value;
      InExtent(vs[faces[k].v[0] - 1], CellExtent(Box(vs, cubical), d, c.x, c.y, c.z))
  {
    var box := Box(vs, cubical);
    BoundsOfTight(vs);
    forall k | 0 <= k < |faces|
      ensures CellOf(vs, faces[k], box, d).Some?
      ensures var c := CellOf(vs, faces[k], box, d).value;
        InExtent(vs[faces[k].v[0] - 1], CellExtent(box, d, c.x, c.y, c.z))
    {
      var p := vs[faces[k].v[0] - 1];
      assert InExtent(p, BoundsOf(vs));
      CubicalOfHolds(BoundsOf(vs), p);
      FirstVertexInCell(vs, faces[k], box, d);
    }
  }

  /* ---------- CropCube ---------- */

  /** `[p]` when `p` lies outside the extent, `[]` when inside. */
  function IfOutside(p: Vertex, e: Extent): seq<Vertex>
  {
    if InExtent(p, e) then [] else [p]
  }

  /** A face's first three corners refer to vertices of the list. */
  predicate FirstThreeIn(f: FaceRec, vertexCount: int)
  {
    |f.v| >= 3 && (forall j :: 0 <= j < 3 ==> 1 <= f.v[j] <= vertexCount)
  }

  /** `FindOutOfBoundVertices`: the vertices of the first three corners that
      lie outside the extent, in corner order; it throws on a face with
      fewer corners or an index outside the vertex list. */
  function OutOfBound(vs: seq<Vertex>, f: FaceRec, e: Extent): (r: Result<seq<Vertex>>)
    ensures r.Success? <==> FirstThreeIn(f, |vs|)
    ensures r.Success? ==> (|r.value| <= 3
      && (forall j :: 0 <= j < |r.value| ==> !InExtent(r.value[j], e))
      && (forall j :: 0 <= j < 3 ==> (vs[f.v[j] - 1] in r.value <==> !InExtent(vs[f.v[j] - 1], e))))
  {
    if !FirstThreeIn(f, |vs|) then Failure("ArgumentOutOfRangeException: corner index")
    else Success(IfOutside(vs[f.v[0] - 1], e) + IfOutside(vs[f.v[1] - 1], e) + IfOutside(vs[f.v[2] - 1], e))
  }

  /** The vertex kept by a repair: the first corner's vertex that was not
      cropped; the source throws when the corners run out or an index is
      outside the vertex list. */
  function Home(vs: seq<Vertex>, idx: seq<int>, cropped: seq<Vertex>): (r: Result<Vertex>)
    ensures r.Success? ==> r.value !in cropped && exists j :: 0 <= j < |idx| && 1 <= idx[j] <= |vs| && r.value == vs[idx[j] - 1]
    decreases |idx|
  {
    if idx == [] then Failure("InvalidOperationException: no corner is left inside")
    else if !(1 <= idx[0] <= |vs|) then Failure("ArgumentOutOfRangeException: corner index")
    else if vs[idx[0] - 1] !in cropped then Success(vs[idx[0] - 1])
    else
      var r := Home(vs, idx[1..], cropped);
      if r.Success? then
        var j :| 0 <= j < |idx[1..]| && 1 <= idx[1..][j] <= |vs| && r.value == vs[idx[1..][j] - 1];
        assert idx[j + 1] == idx[1..][j];
        r
      else r
  }

  /** One turn of the repair loop: the point where the segment from the cropped
      vertex to the home vertex meets the cell's box becomes a new vertex, and
      the face's corner that was loaded as the cropped vertex now refers to
      it. No point (a null result the source dereferences) is a failure. */
  function CutTowards(vs: seq<Vertex>, f: FaceRec, cropped: Vertex, home: Vertex, e: Extent): (r: Result<(seq<Vertex>, FaceRec)>)
    requires WellFormed(f)
    ensures r.Success? ==> WellFormed(r.value.1)
  {
    match Spatial.CheckLineBox(e.MinCorner(), e.MaxCorner(), ToVector3D(cropped), ToVector3D(home))
    case None => Failure("NullReferenceException: the segment misses the cell")
    case Some(p) =>
      Success((vs + [Vertex(|vs| + 1, p.x, p.y, p.z)], UpdateVertex(f, cropped.index, |vs| + 1)))
  }

  /** The repair of one face with its out-of-bound vertices: nothing for one
      (the source leaves that case empty), two cuts towards the home vertex
      for two or three. */
  function RepairFace(vs: seq<Vertex>, f: FaceRec, cropped: seq<Vertex>, e: Extent): (r: Result<(seq<Vertex>, FaceRec)>)
    requires WellFormed(f)
    ensures r.Success? ==> WellFormed(r.value.1)
  {
    if |cropped| <= 1 then Success((vs, f))
    else
      match Home(vs, f.v, cropped)
      case Failure(err) => Failure(err)
      case Success(home) =>
        match CutTowards(vs, f, cropped[0], home, e)
        case Failure(err) => Failure(err)
        case Success(step) => CutTowards(step.0, step.1, cropped[1], home, e)
  }

  /** A cut appends one vertex, indexed by its position, lying on a face of
      the cell's box strictly between the cropped vertex and the home
      vertex; of the face only the current vertex list may change. */
  lemma {:induction false} CutTowardsSound(vs: seq<Vertex>, f: FaceRec, cropped: Vertex, home: Vertex, e: Extent)
    requires WellFormed(f) && !InExtent(cropped, e)
    requires CutTowards(vs, f, cropped, home, e).Success?
    ensures var (vs', f') := CutTowards(vs, f, cropped, home, e).value;
      |vs'| == |vs| + 1 && vs'[..|vs|] == vs && vs'[|vs|].index == |vs| + 1
      && Spatial.OnFace(ToVector3D(vs'[|vs|]), e.MinCorner(), e.MaxCorner())
      && (exists t :: 0.0 < t < 1.0 && ToVector3D(vs'[|vs|]) == Spatial.PointAt(ToVector3D(cropped), ToVector3D(home), t))
      && WellFormed(f') && f'.vt == f.vt && f'.origV == f.origV && f'.origVt == f.origVt
  {
    var b1, b2 := e.MinCorner(), e.MaxCorner();
    assert !Spatial.StrictlyInside(ToVector3D(cropped), b1, b2);
    Spatial.CheckLineBoxLeaves(b1, b2, ToVector3D(cropped), ToVector3D(home));
    var p := Spatial.CheckLineBox(b1, b2, ToVector3D(cropped), ToVector3D(home)).value;
    assert ToVector3D(Vertex(|vs| + 1, p.x, p.y, p.z)) == p;
  }

  /** What the source keeps about a face besides its current vertex list. */
  predicate SameButVertices(f: FaceRec, g: FaceRec)
  {
    |g.v| == |f.v| && g.vt == f.vt && g.origV == f.origV && g.origVt == f.origVt
  }

  /** Vertices `from` and later were added by cuts: each is indexed by its
      position and lies on a face of the cell's box. */
  predicate CutVertices(vs: seq<Vertex>, from: int, e: Extent)
  {
    forall n :: from <= n < |vs| ==> (0 <= n && vs[n].index == n + 1
      && Spatial.OnFace(ToVector3D(vs[n]), e.MinCorner(), e.MaxCorner()))
  }

  lemma {:induction false} RepairFaceSound(vs: seq<Vertex>, f: FaceRec, cropped: seq<Vertex>, e: Extent)
    requires WellFormed(f) && RepairFace(vs, f, cropped, e).Success?
    requires forall j :: 0 <= j < |cropped| ==> !InExtent(cropped[j], e)
    ensures var (vs', f') := RepairFace(vs, f, cropped, e).value;
      |vs'| >= |vs| && vs'[..|vs|] == vs && CutVertices(vs', |vs|, e)
      && WellFormed(f') && SameButVertices(f, f')
  {
    if |cropped| > 1 {
      var home := Home(vs, f.v, cropped).value;
      var step := CutTowards(vs, f, cropped[0], home, e).value;
      CutTowardsSound(vs, f, cropped[0], home, e);
      CutTowardsSound(step.0, step.1, cropped[1], home, e);
      var (vs', f') := RepairFace(vs, f, cropped, e).value;
      assert vs'[..|step.0|] == step.0;
      assert vs'[..|vs|] == step.0[..|vs|];
    }
  }

  /** The first pass of `CropCube`: the out-of-bound vertices of every face of
      the chunk, in chunk order (an empty list for a face the repair pass
      skips). */
  function CollectCropped(vs: seq<Vertex>, faces: seq<FaceRec>, chunk: seq<nat>, e: Extent): (r: Result<seq<seq<Vertex>>>)
    requires ChunkIn(chunk, |faces|)
    ensures r.Success? <==> forall j :: 0 <= j < |chunk| ==> FirstThreeIn(faces[chunk[j]], |vs|)
    ensures r.Success? ==> (|r.value| == |chunk|
      && (forall j :: 0 <= j < |chunk| ==> r.value[j] == OutOfBound(vs, faces[chunk[j]], e).value))
  {
    if chunk == [] then Success([])
    else
      var init := chunk[..|chunk| - 1];
      match CollectCropped(vs, faces, init, e)
      case Failure(err) => Failure(err)
      case Success(outs) =>
        match OutOfBound(vs, faces[chunk[|chunk| - 1]], e)
        case Failure(err) => Failure(err)
        case Success(out) => Success(outs + [out])
  }

  /** Every collected vertex lies outside the extent. */
  predicate AllOutside(outs: seq<seq<Vertex>>, e: Extent)
  {
    forall a, b :: 0 <= a < |outs| && 0 <= b < |outs[a]| ==> !InExtent(outs[a][b], e)
  }

  /** The second pass of `CropCube` from the `i`-th face of the chunk on. */
  function RepairFrom(vs: seq<Vertex>, faces: seq<FaceRec>, chunk: seq<nat>, outs: seq<seq<Vertex>>, e: Extent, i: nat): Result<(seq<Vertex>, seq<FaceRec>)>
    requires ChunkIn(chunk, |faces|) && AllWellFormed(faces) && |outs| == |chunk| && i <= |chunk|
    decreases |chunk| - i
  {
    if i == |chunk| then Success((vs, faces))
    else
      match RepairFace(vs, faces[chunk[i]], outs[i], e)
      case Failure(err) => Failure(err)
      case Success(step) => RepairFrom(step.0, faces[chunk[i] := step.1], chunk, outs, e, i + 1)
  }

  /** `CropCube` on values: both passes. */
  function Crop(vs: seq<Vertex>, faces: seq<FaceRec>, chunk: seq<nat>, e: Extent): Result<(seq<Vertex>, seq<FaceRec>)>
    requires ChunkIn(chunk, |faces|) && AllWellFormed(faces)
  {
    match CollectCropped(vs, faces, chunk, e)
    case Failure(err) => Failure(err)
    case Success(outs) => RepairFrom(vs, faces, chunk, outs, e, 0)
  }

  /** The mesh after cropping against the mesh before: vertices only
      appended, each indexed by its position and lying on a face of the
      cell's box; of the faces only the current vertex lists of `touched`
      ones changed. */
  predicate Cropped(vs: seq<Vertex>, faces: seq<FaceRec>, vs': seq<Vertex>, faces': seq<FaceRec>, touched: seq<nat>, e: Extent)
  {
    |vs'| >= |vs| && vs'[..|vs|] == vs && CutVertices(vs', |vs|, e)
    && |faces'| == |faces| && AllWellFormed(faces')
    && (forall k :: 0 <= k < |faces| ==> SameButVertices(faces[k], faces'[k]))
    && (forall k :: 0 <= k < |faces| && k !in touched ==> faces'[k] == faces[k])
  }

  lemma {:induction false} CroppedThen(vs: seq<Vertex>, faces: seq<FaceRec>, vs1: seq<Vertex>, faces1: seq<FaceRec>,
                    vs2: seq<Vertex>, faces2: seq<FaceRec>, c: nat, rest: seq<nat>, e: Extent)
    requires Cropped(vs, faces, vs1, faces1, [c], e) && Cropped(vs1, faces1, vs2, faces2, rest, e)
    ensures Cropped(vs, faces, vs2, faces2, [c] + rest, e)
  {
    assert vs2[..|vs|] == vs2[..|vs1|][..|vs|];
  }

  /** Cropping from the `i`-th face of the chunk on. */
  lemma {:induction false} RepairFromSound(vs: seq<Vertex>, faces: seq<FaceRec>, chunk: seq<nat>, outs: seq<seq<Vertex>>, e: Extent, i: nat)
    requires ChunkIn(chunk, |faces|) && AllWellFormed(faces) && |outs| == |chunk| && i <= |chunk|
    requires AllOutside(outs, e)
    requires RepairFrom(vs, faces, chunk, outs, e, i).Success?
    ensures var r := RepairFrom(vs, faces, chunk, outs, e, i).value;
      Cropped(vs, faces, r.0, r.1, chunk[i..], e)
    decreases |chunk| - i
  {
    if i < |chunk| {
      var step := RepairFace(vs, faces[chunk[i]], outs[i], e).value;
      RepairFaceSound(vs, faces[chunk[i]], outs[i], e);
      var faces1 := faces[chunk[i] := step.1];
      assert Cropped(vs, faces, step.0, faces1, [chunk[i]], e);
      RepairFromSound(step.0, faces1, chunk, outs, e, i + 1);
      var r := RepairFrom(vs, faces, chunk, outs, e, i).value;
      CroppedThen(vs, faces, step.0, faces1, r.0, r.1, chunk[i], chunk[i + 1..], e);
      assert [chunk[i]] + chunk[i + 1..] == chunk[i..];
    } else {
      assert vs[..|vs|] == vs;
    }
  }

  /** The whole crop: on success the mesh has only grown by vertices on the
      cell's boundary, and only chunk faces' current vertex lists changed. */
  lemma {:induction false} CropSound(vs: seq<Vertex>, faces: seq<FaceRec>, chunk: seq<nat>, e: Extent)
    requires ChunkIn(chunk, |faces|) && AllWellFormed(faces)
    requires Crop(vs, faces, chunk, e).Success?
    ensures var r := Crop(vs, faces, chunk, e).value;
      Cropped(vs, faces, r.0, r.1, chunk, e)
  {
    var outs := CollectCropped(vs, faces, chunk, e).value;
    forall a, b | 0 <= a < |outs| && 0 <= b < |outs[a]| ensures !InExtent(outs[a][b], e) {
      assert outs[a] == OutOfBound(vs, faces[chunk[a]], e).value;
    }
    RepairFromSound(vs, faces, chunk, outs, e, 0);
    assert chunk[0..] == chunk;
  }
}
