/** `Obj` of `PyriteLib/Obj.cs`: a mesh held in memory as vertex, face and
    UV lists, partitioned into a three-dimensional matrix of cells, cropped
    cell by cell and written out as OBJ and EBO.

    The lists are sequences of values that the methods reassign; a face the
    source shares between the face list and a cell is a position in the face
    list here, so updating "the face" is replacing that entry. Every method
    is proved against the value-level functions of `MeshSpec`, `ObjWriter`,
    `Ebo` and `UvTransforms`. */
module Mesh {
  import opened Wrappers
  import opened Extents
  import opened Vertices
  import opened Faces
  import opened Uvs
  import opened MeshSpec
  import ObjWriter
  import Ebo
  import UvTransforms
  import Spatial
  import Seqs

  /** `RevertVertices` on every face. */
  function RevertAll(faces: seq<FaceRec>): (r: seq<FaceRec>)
    ensures |r| == |faces| && forall k :: 0 <= k < |r| ==> r[k] == Reverted(faces[k])
  {
    seq(|faces|, k requires 0 <= k < |faces| => Reverted(faces[k]))
  }

  /** What `WriteSpecificCube` produces besides the new lists. */
  datatype CubeOutput = CubeOutput(
    count: int, vertices: seq<Vertex>, faces: seq<FaceRec>,
    obj: seq<ObjWriter.ObjLine>, ebo: seq<Ebo.EboRecord>)

  /** The EBO writer on values: the corrected stream, or the failure of a
      face without three corners or with an index outside the lists. */
  function WriteEbo(vs: seq<Vertex>, uvs: seq<Uv>, faces: seq<FaceRec>, chunk: seq<nat>): Result<seq<Ebo.EboRecord>>
  {
    if Ebo.Writable(vs, uvs, faces, chunk) then Success(Ebo.Encode(vs, uvs, faces, chunk))
    else Failure("ArgumentOutOfRangeException: a face of the chunk names a missing corner")
  }

  /** The writes of `WriteSpecificCube` after the crop: the EBO stream
      if asked for, then the OBJ lines if asked for. */
  function WriteCropped(vs: seq<Vertex>, uvs: seq<Uv>, faces: seq<FaceRec>, chunk: seq<nat>,
                        mtlOverride: string, mtl: string, generateEbo: bool, generateObj: bool): Result<CubeOutput>
    requires ChunkIn(chunk, |faces|) && AllWellFormed(faces)
  {
    match (if generateEbo then WriteEbo(vs, uvs, faces, chunk) else Success([]))
    case Failure(err) => Failure(err)
    case Success(ebo) =>
      if !generateObj then Success(CubeOutput(|chunk|, vs, faces, [], ebo))
      else
        match ObjWriter.WriteObj(vs, uvs, faces, chunk, mtlOverride, mtl)
        case Failure(err) => Failure(err)
        case Success((lines, faces2)) => Success(CubeOutput(|chunk|, vs, faces2, lines, ebo))
  }

  /** `WriteSpecificCube` on values, for the chunk of one cell with extent
      `e`: revert the faces if a write renumbered them, then (for a
      non-empty chunk) crop, write the EBO stream, write the OBJ lines. */
  function WriteCube(vs: seq<Vertex>, uvs: seq<Uv>, faces: seq<FaceRec>, chunk: seq<nat>, e: Extent,
                     reset: bool, mtlOverride: string, mtl: string, generateEbo: bool, generateObj: bool): Result<CubeOutput>
    requires ChunkIn(chunk, |faces|) && AllWellFormed(faces)
  {
    var faces1 := if reset then RevertAll(faces) else faces;
    if chunk == [] then Success(CubeOutput(0, vs, faces1, [], []))
    else
      match Crop(vs, faces1, chunk, e)
      case Failure(err) => Failure(err)
      case Success((vs2, faces2)) =>
        CropSound(vs, faces1, chunk, e);
        WriteCropped(vs2, uvs, faces2, chunk, mtlOverride, mtl, generateEbo, generateObj)
  }

  /** Vertices and UVs carry their 1-based positions and every face is
      well formed. */
  predicate ListsValid(m: Lists)
  {
    (forall n :: 0 <= n < |m.vertices| ==> m.vertices[n].index == n + 1)
    && UvTransforms.UvsIndexed(m.uvs) && AllWellFormed(m.faces)
  }

  /** Every cell lists positions below `count`, in increasing order. */
  predicate CellsIn(cells: array3<seq<nat>>, count: int)
    reads cells
  {
    forall x, y, z :: 0 <= x < cells.Length0 && 0 <= y < cells.Length1 && 0 <= z < cells.Length2 ==>
      ChunkIn(cells[x, y, z], count) && Increasing(cells[x, y, z])
  }

  /** Cell (x, y, z) holds exactly the faces `CellOf` places there. */
  predicate PlacedIn(cells: array3<seq<nat>>, vs: seq<Vertex>, faces: seq<FaceRec>, box: Extent)
    reads cells
  {
    forall x, y, z :: 0 <= x < cells.Length0 && 0 <= y < cells.Length1 && 0 <= z < cells.Length2 ==>
      cells[x, y, z] == CellFaces(vs, faces, box, Dims(cells.Length0, cells.Length1, cells.Length2), |faces|, Dims(x, y, z))
  }

  /** A parsed line keeps the lists valid and the face list only grows. */
  lemma {:induction false} AddRecordValid(m: Lists, rec: ObjRecord)
    requires ListsValid(m) && (rec.FaceRecord? ==> WellFormed(rec.face))
    ensures ListsValid(AddRecord(m, rec)) && |m.faces| <= |AddRecord(m, rec).faces|
  {
  }

  lemma {:induction false} CellsInGrows(cells: array3<seq<nat>>, a: int, b: int)
    requires CellsIn(cells, a) && a <= b
    ensures CellsIn(cells, b)
  {
  }

  /** Every cell holds what `CellOf` places there among the first `n` faces. */
  predicate Holds(cells: array3<seq<nat>>, vs: seq<Vertex>, faces: seq<FaceRec>, box: Extent, n: nat)
    reads cells
    requires n <= |faces|
  {
    forall x, y, z :: 0 <= x < cells.Length0 && 0 <= y < cells.Length1 && 0 <= z < cells.Length2 ==>
      cells[x, y, z] == CellFaces(vs, faces, box, Dims(cells.Length0, cells.Length1, cells.Length2), n, Dims(x, y, z))
  }

  lemma {:induction false} CellFacesIn(cells: array3<seq<nat>>, vs: seq<Vertex>, faces: seq<FaceRec>, box: Extent, n: nat)
    requires n <= |faces| && Holds(cells, vs, faces, box, n)
    ensures CellsIn(cells, |faces|)
    ensures n == |faces| ==> PlacedIn(cells, vs, faces, box)
  {
    var d := Dims(cells.Length0, cells.Length1, cells.Length2);
    forall x, y, z | 0 <= x < cells.Length0 && 0 <= y < cells.Length1 && 0 <= z < cells.Length2
      ensures ChunkIn(cells[x, y, z], |faces|) && Increasing(cells[x, y, z])
    {
      CellFacesMembers(vs, faces, box, d, n, Dims(x, y, z));
      var s := cells[x, y, z];
      forall j | 0 <= j < |s| ensures s[j] < |faces| {
        assert s[j] in CellFaces(vs, faces, box, d, n, Dims(x, y, z));
      }
    }
  }

  /** The first loop of `populateMatrix`: every cell the enumeration
      visits is emptied, and it visits every cell once. */
  method ClearCells(cells: array3<seq<nat>>, calls: seq<Spatial.Cell3>)
    requires calls == Spatial.Grid3(cells.Length0, cells.Length1, cells.Length2)
    modifies cells
    ensures forall x, y, z :: 0 <= x < cells.Length0 && 0 <= y < cells.Length1 && 0 <= z < cells.Length2 ==>
      cells[x, y, z] == []
  {
    var (l0, l1, l2) := (cells.Length0, cells.Length1, cells.Length2);
    assert forall k :: 0 <= k < |calls| ==> Spatial.InGrid3(calls[k], l0, l1, l2) by {
      Spatial.Grid3Members(l0, l1, l2);
      forall k | 0 <= k < |calls| ensures Spatial.InGrid3(calls[k], l0, l1, l2) {
        assert calls[k] in calls;
      }
    }
    var i := 0;
    while i < |calls|
      invariant 0 <= i <= |calls|
      invariant forall k :: 0 <= k < i ==> cells[calls[k].0, calls[k].1, calls[k].2] == []
    {
      var (x, y, z) := calls[i];
      cells[x, y, z] := [];
      i := i + 1;
    }
    forall x, y, z | 0 <= x < l0 && 0 <= y < l1 && 0 <= z < l2
      ensures cells[x, y, z] == []
    {
      assert (x, y, z) in calls by {
        Spatial.Grid3Members(l0, l1, l2);
        assert Spatial.InGrid3((x, y, z), l0, l1, l2);
      }
      var k :| 0 <= k < |calls| && calls[k] == (x, y, z);
    }
  }

  /** The face loop of `populateMatrix` over emptied cells: each face, in
      order, appended to the cell of its first vertex; a face with no cell
      stops the loop. */
  method FillCells(cells: array3<seq<nat>>, vs: seq<Vertex>, faces: seq<FaceRec>, box: Extent) returns (placed: bool)
    requires forall x, y, z :: 0 <= x < cells.Length0 && 0 <= y < cells.Length1 && 0 <= z < cells.Length2 ==>
      cells[x, y, z] == []
    modifies cells
    ensures CellsIn(cells, |faces|)
    ensures placed <==> AllPlaced(vs, faces, box, Dims(cells.Length0, cells.Length1, cells.Length2))
    ensures placed ==> PlacedIn(cells, vs, faces, box)
  {
    var d := Dims(cells.Length0, cells.Length1, cells.Length2);
    CellFacesIn(cells, vs, faces, box, 0);
    var n := 0;
    while n < |faces|
      invariant 0 <= n <= |faces|
      invariant forall k :: 0 <= k < n ==> CellOf(vs, faces[k], box, d).Some?
      invariant Holds(cells, vs, faces, box, n)
      invariant CellsIn(cells, |faces|)
    {
      var c := CellOf(vs, faces[n], box, d);
      if c.None? {
        return false;
      }
      AppendFace(cells, vs, faces, box, n, c.value);
      n := n + 1;
      CellFacesIn(cells, vs, faces, box, n);
    }
    CellFacesIn(cells, vs, faces, box, n);
    placed := true;
  }

  /** The second loop's step: face `n` appended to the cell `CellOf` gives it. */
  method AppendFace(cells: array3<seq<nat>>, vs: seq<Vertex>, faces: seq<FaceRec>, box: Extent, n: nat, c: Dims)
    requires n < |faces| && Holds(cells, vs, faces, box, n)
    requires CellOf(vs, faces[n], box, Dims(cells.Length0, cells.Length1, cells.Length2)) == Some(c)
    modifies cells
    ensures Holds(cells, vs, faces, box, n + 1)
  {
    var d := Dims(cells.Length0, cells.Length1, cells.Length2);
    cells[c.x, c.y, c.z] := cells[c.x, c.y, c.z] + [n];
    forall x, y, z | 0 <= x < cells.Length0 && 0 <= y < cells.Length1 && 0 <= z < cells.Length2
      ensures cells[x, y, z] == CellFaces(vs, faces, box, d, n + 1, Dims(x, y, z))
    {
      if Dims(x, y, z) != c {
        assert cells[x, y, z] == old(cells[x, y, z]);
      }
    }
  }

  /** The first pass of `CropCube`: each chunk face's out-of-bound
      vertices, in chunk order. */
  method FindCropped(vs: seq<Vertex>, faces: seq<FaceRec>, chunk: seq<nat>, e: Extent) returns (r: Result<seq<seq<Vertex>>>)
    requires ChunkIn(chunk, |faces|)
    ensures r.Success? <==> CollectCropped(vs, faces, chunk, e).Success?
    ensures r.Success? ==> r == CollectCropped(vs, faces, chunk, e)
  {
    var outs: seq<seq<Vertex>> := [];
    var j := 0;
    while j < |chunk|
      invariant 0 <= j <= |chunk|
      invariant CollectCropped(vs, faces, chunk[..j], e) == Success(outs)
    {
      assert chunk[..j + 1][..j] == chunk[..j];
      var found := OutOfBound(vs, faces[chunk[j]], e);
      if found.Failure? {
        assert !FirstThreeIn(faces[chunk[j]], |vs|);
        return Failure(found.error);
      }
      outs := outs + [found.value];
      j := j + 1;
    }
    assert chunk[..j] == chunk;
    r := Success(outs);
  }

  /** Every index names an entry of a list of `n`. */
  predicate InList(idx: seq<int>, n: int)
  {
    forall j :: 0 <= j < |idx| ==> 1 <= idx[j] <= n
  }

  /** The faces of the chunk that currently use index `i` of a channel
      get the entry loaded as `key` renumbered to `newIndex`, one face at a
      time (`WriteVertexWithNewIndex`). */
  method UpdateFaces(faces: seq<FaceRec>, chunk: seq<nat>, ch: ObjWriter.Channel, i: int, key: int, newIndex: int)
    returns (r: seq<FaceRec>)
    requires AllWellFormed(faces) && ChunkIn(chunk, |faces|) && Increasing(chunk)
    ensures r == ObjWriter.RenumberStep(faces, chunk, ch, i, key, newIndex)
  {
    r := faces;
    var j := 0;
    while j < |chunk|
      invariant 0 <= j <= |chunk|
      invariant r == ObjWriter.RenumberStep(faces, chunk[..j], ch, i, key, newIndex)
    {
      var k := chunk[j];
      assert k !in chunk[..j] by {
        forall q | 0 <= q < j ensures chunk[..j][q] != k {
          assert chunk[q] < chunk[j];
        }
      }
      assert chunk[..j + 1] == chunk[..j] + [k];
      RenumberStepSnoc(faces, chunk[..j], k, ch, i, key, newIndex);
      if i in ObjWriter.Cur(r[k], ch) {
        r := r[k := ObjWriter.UpdateOn(r[k], ch, key, newIndex)];
      }
      j := j + 1;
    }
    assert chunk[..j] == chunk;
  }

  /** The vertex pass of `WriteObjFormattedFile`: each required vertex
      written, the chunk's faces renumbered to the count written so far.
      On a failure the faces renumbered so far are returned. */
  method VertexPass(vs: seq<Vertex>, faces: seq<FaceRec>, chunk: seq<nat>, rv: seq<int>)
    returns (outcome: Outcome, lines: seq<ObjWriter.ObjLine>, r: seq<FaceRec>)
    requires AllWellFormed(faces) && ChunkIn(chunk, |faces|) && Increasing(chunk)
    ensures |r| == |faces| && AllWellFormed(r)
    ensures var w := ObjWriter.Renumber(faces, chunk, ObjWriter.Positions, ObjWriter.VertexKeys(vs), rv, 0);
      (outcome.Pass? <==> w.Success?)
      && (outcome.Pass? ==> r == w.value && InList(rv, |vs|) && lines == ObjWriter.VertexLines(vs, rv))
  {
    var keys := ObjWriter.VertexKeys(vs);
    lines, r := [], faces;
    var i := 0;
    while i < |rv|
      invariant 0 <= i <= |rv| && InList(rv[..i], |vs|)
      invariant |r| == |faces| && AllWellFormed(r)
      invariant lines == ObjWriter.VertexLines(vs, rv[..i])
      invariant ObjWriter.Renumber(faces, chunk, ObjWriter.Positions, keys, rv, 0)
        == ObjWriter.Renumber(r, chunk, ObjWriter.Positions, keys, rv[i..], i)
    {
      var x := rv[i];
      if !(1 <= x <= |vs|) {
        RenumberNext(r, chunk, ObjWriter.Positions, keys, rv, i);
        return Fail("ArgumentOutOfRangeException: index outside the list"), lines, r;
      }
      var moving := vs[x - 1];
      PassStep(faces, r, chunk, ObjWriter.Positions, keys, rv, i, moving.index);
      VertexLinesSnoc(vs, rv, i);
      lines := lines + [ObjWriter.VertexLine(moving)];
      r := UpdateFaces(r, chunk, ObjWriter.Positions, x, moving.index, i + 1);
      i := i + 1;
    }
    assert rv[..i] == rv && rv[i..] == [];
    outcome := Pass;
  }

  /** The UV pass, as the vertex pass over the texture list. */
  method UvPass(uvs: seq<Uv>, faces: seq<FaceRec>, chunk: seq<nat>, rt: seq<int>)
    returns (outcome: Outcome, lines: seq<ObjWriter.ObjLine>, r: seq<FaceRec>)
    requires AllWellFormed(faces) && ChunkIn(chunk, |faces|) && Increasing(chunk)
    ensures |r| == |faces| && AllWellFormed(r)
    ensures var w := ObjWriter.Renumber(faces, chunk, ObjWriter.TexCoords, ObjWriter.UvKeys(uvs), rt, 0);
      (outcome.Pass? <==> w.Success?)
      && (outcome.Pass? ==> r == w.value && InList(rt, |uvs|) && lines == ObjWriter.UvLines(uvs, rt))
  {
    var keys := ObjWriter.UvKeys(uvs);
    lines, r := [], faces;
    var i := 0;
    while i < |rt|
      invariant 0 <= i <= |rt| && InList(rt[..i], |uvs|)
      invariant |r| == |faces| && AllWellFormed(r)
      invariant lines == ObjWriter.UvLines(uvs, rt[..i])
      invariant ObjWriter.Renumber(faces, chunk, ObjWriter.TexCoords, keys, rt, 0)
        == ObjWriter.Renumber(r, chunk, ObjWriter.TexCoords, keys, rt[i..], i)
    {
      var x := rt[i];
      if !(1 <= x <= |uvs|) {
        RenumberNext(r, chunk, ObjWriter.TexCoords, keys, rt, i);
        return Fail("ArgumentOutOfRangeException: index outside the list"), lines, r;
      }
      var moving := uvs[x - 1];
      PassStep(faces, r, chunk, ObjWriter.TexCoords, keys, rt, i, moving.index);
      UvLinesSnoc(uvs, rt, i);
      lines := lines + [ObjWriter.UvLine(moving)];
      r := UpdateFaces(r, chunk, ObjWriter.TexCoords, x, moving.index, i + 1);
      i := i + 1;
    }
    assert rt[..i] == rt && rt[i..] == [];
    outcome := Pass;
  }

  /** The body of `WriteObjFormattedFile`: the header, the vertex pass,
      the UV pass, the face lines. On a failure the lines written so far
      and the faces renumbered so far are returned. */
  method WriteObjChunk(vs: seq<Vertex>, uvs: seq<Uv>, faces: seq<FaceRec>, chunk: seq<nat>, mtlOverride: string, mtl: string)
    returns (outcome: Outcome, lines: seq<ObjWriter.ObjLine>, faces': seq<FaceRec>)
    requires AllWellFormed(faces) && ChunkIn(chunk, |faces|) && Increasing(chunk)
    ensures |faces'| == |faces| && AllWellFormed(faces')
    ensures var w := ObjWriter.WriteObj(vs, uvs, faces, chunk, mtlOverride, mtl);
      (outcome.Pass? <==> w.Success?) && (outcome.Pass? ==> (lines, faces') == w.value)
  {
    var rv := ObjWriter.Required(faces, chunk, ObjWriter.Positions);
    var rt := ObjWriter.Required(faces, chunk, ObjWriter.TexCoords);
    var vertexPart, uvPart, faces1;
    outcome, vertexPart, faces1 := VertexPass(vs, faces, chunk, rv);
    lines, faces' := ObjWriter.Header(mtlOverride, mtl) + vertexPart, faces1;
    if outcome.Fail? {
      return;
    }
    outcome, uvPart, faces' := UvPass(uvs, faces1, chunk, rt);
    lines := lines + uvPart;
    if outcome.Fail? {
      return;
    }
    lines := lines + ObjWriter.FaceLines(faces', chunk);
    WriteObjSteps(vs, uvs, faces, faces1, faces', chunk, mtlOverride, mtl);
  }

  /** The inner loop of `WriteEboFormattedFile`: the three corner records
      of the `fi`-th chunk face appended in order. */
  method AppendFaceCorners(vs: seq<Vertex>, uvs: seq<Uv>, faces: seq<FaceRec>, chunk: seq<nat>, fi: int, records: seq<Ebo.EboRecord>)
    returns (records': seq<Ebo.EboRecord>)
    requires Ebo.Writable(vs, uvs, faces, chunk) && 0 <= fi < |chunk|
    ensures records' == records + Ebo.FaceCorners(vs, uvs, faces, chunk, fi)
  {
    ghost var corners := Ebo.FaceCorners(vs, uvs, faces, chunk, fi);
    records' := records;
    var i := 0;
    while i < 3
      invariant 0 <= i <= 3
      invariant records' == records + corners[..i]
    {
      records' := records' + [Ebo.CornerRecord(vs, uvs, faces, chunk, fi, i)];
      assert corners[..i + 1] == corners[..i] + [corners[i]];
      i := i + 1;
    }
  }

  /** The body of `WriteEboFormattedFile`: the count, three corner records
      per face (the corrected back-reference rule), the end marker. */
  method EncodeChunk(vs: seq<Vertex>, uvs: seq<Uv>, faces: seq<FaceRec>, chunk: seq<nat>) returns (records: seq<Ebo.EboRecord>)
    requires Ebo.Writable(vs, uvs, faces, chunk)
    ensures records == Ebo.Encode(vs, uvs, faces, chunk)
  {
    ghost var perFace := Ebo.FaceRecords(vs, uvs, faces, chunk);
    records := [Ebo.Count(|chunk| % 65536)];
    var fi := 0;
    while fi < |chunk|
      invariant 0 <= fi <= |chunk|
      invariant records == [Ebo.Count(|chunk| % 65536)] + Seqs.Flatten(perFace[..fi])
    {
      records := AppendFaceCorners(vs, uvs, faces, chunk, fi, records);
      Seqs.FlattenPrefix(perFace, fi);
      assert perFace[fi] == Ebo.FaceCorners(vs, uvs, faces, chunk, fi);
      fi := fi + 1;
    }
    assert perFace[..fi] == perFace;
    records := records + [Ebo.End];
  }

  /** One extent of `TransformUVs` on the lists: the faces with a vertex in
      the extent, the UVs they use, each visited. */
  method TransformExtentValues(vs: seq<Vertex>, uvs: seq<Uv>, faces: seq<FaceRec>, et: UvTransforms.ExtentTransforms)
    returns (r: Result<(seq<Uv>, seq<FaceRec>)>)
    requires AllWellFormed(faces)
    ensures r == UvTransforms.TransformExtent(vs, uvs, faces, et)
  {
    var picked := UvTransforms.FacesIn(vs, faces, et.extent, |faces|);
    if picked.Failure? {
      return Failure(picked.error);
    }
    var sel := picked.value;
    var idx := ObjWriter.Required(faces, sel, ObjWriter.TexCoords);
    if exists k :: 0 <= k < |idx| && !(1 <= idx[k] <= |uvs|) {
      return Failure("ArgumentOutOfRangeException: texture vertex index");
    }
    var uvs', faces' := VisitEach(uvs, faces, sel, et.transforms, idx);
    r := Success((uvs', faces'));
  }

  /** The inner loop of `TransformUVs` for one extent: each collected UV
      visited in order, moved in place or, when an earlier extent already
      moved it, cloned from its loaded position with the selected faces
      retargeted to the clone. */
  method VisitEach(uvs: seq<Uv>, faces: seq<FaceRec>, sel: seq<nat>, ts: seq<RectTransforms.RectangleTransform>, idx: seq<int>)
    returns (uvs': seq<Uv>, faces': seq<FaceRec>)
    requires AllWellFormed(faces) && ChunkIn(sel, |faces|) && Increasing(sel)
    requires forall k :: 0 <= k < |idx| ==> 1 <= idx[k] <= |uvs|
    ensures (uvs', faces') == UvTransforms.VisitAll(uvs, faces, sel, ts, idx)
  {
    uvs', faces' := uvs, faces;
    var k := 0;
    while k < |idx|
      invariant 0 <= k <= |idx|
      invariant |faces'| == |faces| && AllWellFormed(faces') && |uvs| <= |uvs'|
      invariant UvTransforms.VisitAll(uvs, faces, sel, ts, idx) == UvTransforms.VisitAll(uvs', faces', sel, ts, idx[k..])
    {
      assert idx[k..][0] == idx[k] && idx[k..][1..] == idx[k + 1..];
      UvTransforms.VisitShape(uvs', faces', sel, ts, idx[k]);
      var next := UvTransforms.Visit(uvs', faces', sel, ts, idx[k]);
      var u := uvs'[idx[k] - 1];
      var t := UvTransforms.FirstContaining(ts, u);
      if t.Some? {
        if u.transformed {
          var (list, newIndex) := CloneOriginalInto(u, uvs');
          uvs' := list[newIndex - 1 := TransformUv(list[newIndex - 1], t.value)];
          faces' := UpdateFaces(faces', sel, ObjWriter.TexCoords, u.index, u.index, newIndex);
        } else {
          uvs' := uvs'[idx[k] - 1 := TransformUv(u, t.value)];
        }
      }
      assert (uvs', faces') == next;
      k := k + 1;
    }
    assert idx[k..] == [];
  }

  class Obj {
    var vertexList: seq<Vertex>
    var faceList: seq<FaceRec>
    var faceMatrix: array3<seq<nat>>
    var textureList: seq<Uv>
    var size: Extent
    var cubicalSize: Extent
    var mtl: string
    var verticesRequireReset: bool

    /** The lists and material name as `MeshSpec` describes them. */
    function Contents(): Lists
      reads this
    {
      Lists(vertexList, faceList, textureList, mtl)
    }

    function Grid(): Dims
      reads this
    {
      Dims(faceMatrix.Length0, faceMatrix.Length1, faceMatrix.Length2)
    }

    /** The mesh's invariant: the lists valid and every cell within the
        face list. */
    predicate Valid()
      reads this, faceMatrix
    {
      ListsValid(Contents()) && CellsIn(faceMatrix, |faceList|)
    }

    constructor ()
      ensures Valid() && Contents() == Lists([], [], [], "") && Grid() == Dims(0, 0, 0) && !verticesRequireReset
    {
      vertexList := [];
      faceList := [];
      textureList := [];
      faceMatrix := new seq<nat>[0, 0, 0];
      size := Extent(0.0, 0.0, 0.0, 0.0, 0.0, 0.0);
      cubicalSize := size;
      mtl := "";
      verticesRequireReset := false;
    }

    /** `processLine`: one line of the file added to the lists. */
    method ProcessLine(line: string) returns (outcome: Outcome)
      requires Valid()
      modifies this
      ensures Valid() && faceMatrix == old(faceMatrix) && size == old(size) && cubicalSize == old(cubicalSize)
      ensures verticesRequireReset == old(verticesRequireReset)
      ensures outcome.Pass? <==> ParseLine(line).Success?
      ensures Contents() == (if outcome.Pass? then AddRecord(old(Contents()), ParseLine(line).value) else old(Contents()))
    {
      var r := ParseLine(line);
      if r.Failure? {
        return Fail(r.error);
      }
      var m := AddRecord(Contents(), r.value);
      AddRecordValid(Contents(), r.value);
      CellsInGrows(faceMatrix, |faceList|, |m.faces|);
      vertexList, faceList, textureList, mtl := m.vertices, m.faces, m.uvs, m.mtl;
      outcome := Pass;
    }

    /** `updateSize`: `Size` from the vertices and `CubicalSize` from it;
        the source's `Max` over no vertices throws. */
    method UpdateSize() returns (outcome: Outcome)
      modifies this
      ensures Contents() == old(Contents()) && faceMatrix == old(faceMatrix)
      ensures verticesRequireReset == old(verticesRequireReset)
      ensures outcome.Pass? <==> |vertexList| > 0
      ensures outcome.Pass? ==> size == BoundsOf(vertexList) && cubicalSize == CubicalOf(size)
      ensures outcome.Fail? ==> size == old(size) && cubicalSize == old(cubicalSize)
    {
      if |vertexList| == 0 {
        return Fail("InvalidOperationException: sequence contains no elements");
      }
      size := BoundsOf(vertexList);
      cubicalSize := CubicalOf(size);
      outcome := Pass;
    }

    /** `populateMatrix`: empties every cell through `EnumerateSpace`, then
        appends each face, in order, to the cell of its first vertex. */
    method PopulateMatrix(box: Extent) returns (outcome: Outcome)
      requires Valid()
      modifies faceMatrix
      ensures Valid()
      ensures outcome.Pass? <==> AllPlaced(vertexList, faceList, box, Grid())
      ensures outcome.Pass? ==> PlacedIn(faceMatrix, vertexList, faceList, box)
    {
      var cells, d := faceMatrix, Grid();
      var calls := Spatial.EnumerateSpace(d.x, d.y, d.z);
      ClearCells(cells, calls);
      var placed := FillCells(cells, vertexList, faceList, box);
      outcome := if placed then Pass else Fail("IndexOutOfRangeException: no cell for the face");
    }

    /** The line loop of `LoadObj`: each line processed in order; the first
        that fails to parse stops the load. */
    method ReadLines(lines: seq<string>) returns (outcome: Outcome)
      requires Valid()
      modifies this
      ensures Valid() && faceMatrix == old(faceMatrix) && verticesRequireReset == old(verticesRequireReset)
      ensures outcome.Pass? <==> LoadLines(old(Contents()), lines).Success?
      ensures outcome.Pass? ==> Contents() == LoadLines(old(Contents()), lines).value
    {
      ghost var start := Contents();
      var i := 0;
      while i < |lines|
        invariant 0 <= i <= |lines|
        invariant Valid() && faceMatrix == old(faceMatrix) && verticesRequireReset == old(verticesRequireReset)
        invariant LoadLines(start, lines) == LoadLines(Contents(), lines[i..])
      {
        var r := ProcessLine(lines[i]);
        assert lines[i..][0] == lines[i] && lines[i..][1..] == lines[i + 1..];
        if r.Fail? {
          return r;
        }
        i := i + 1;
      }
      assert lines[i..] == [];
      outcome := Pass;
    }

    /** `LoadObj`: a fresh matrix of the grid's size (the source throws on a
        negative length), every line read, the size computed, the faces
        partitioned by `CubicalSize` or `Size`. */
    method LoadObj(lines: seq<string>, gridSize: Dims, forceCubical: bool) returns (outcome: Outcome)
      modifies this
      ensures outcome.Pass? <==>
        (gridSize.x >= 0 && gridSize.y >= 0 && gridSize.z >= 0
         && LoadLines(Lists([], [], [], ""), lines).Success?
         && |LoadLines(Lists([], [], [], ""), lines).value.vertices| > 0
         && var m := LoadLines(Lists([], [], [], ""), lines).value;
         AllPlaced(m.vertices, m.faces, Box(m.vertices, forceCubical), gridSize))
      ensures outcome.Pass? ==>
        Valid() && fresh(faceMatrix) && Grid() == gridSize && !verticesRequireReset
        && Contents() == LoadLines(Lists([], [], [], ""), lines).value
        && size == BoundsOf(vertexList) && cubicalSize == CubicalOf(size)
        && PlacedIn(faceMatrix, vertexList, faceList, if forceCubical then cubicalSize else size)
    {
      if gridSize.x < 0 || gridSize.y < 0 || gridSize.z < 0 {
        return Fail("OverflowException: negative grid length");
      }
      vertexList := [];
      faceList := [];
      faceMatrix := new seq<nat>[gridSize.x, gridSize.y, gridSize.z]((_, _, _) => []);
      textureList := [];
      mtl := "";
      var read := ReadLines(lines);
      if read.Fail? {
        return read;
      }
      outcome := Partition(forceCubical);
    }

    /** The tail of `LoadObj`: `updateSize`, then `populateMatrix` with
        `CubicalSize` or `Size`; the reset flag is cleared once both pass. */
    method Partition(forceCubical: bool) returns (outcome: Outcome)
      requires Valid()
      modifies this, faceMatrix
      ensures Valid() && Contents() == old(Contents()) && faceMatrix == old(faceMatrix)
      ensures outcome.Pass? <==>
        |vertexList| > 0 && AllPlaced(vertexList, faceList, Box(vertexList, forceCubical), Grid())
      ensures outcome.Pass? ==>
        !verticesRequireReset && size == BoundsOf(vertexList) && cubicalSize == CubicalOf(size)
        && PlacedIn(faceMatrix, vertexList, faceList, if forceCubical then cubicalSize else size)
    {
      var sized := UpdateSize();
      if sized.Fail? {
        return sized;
      }
      var box := if forceCubical then cubicalSize else size;
      outcome := PopulateMatrix(box);
      verticesRequireReset := false;
    }

    /** `CropCube`: the cell's extent, the out-of-bound vertices of every
        chunk face, then the repair of each face in chunk order. */
    method CropCube(chunk: seq<nat>, cx: int, cy: int, cz: int, box: Extent) returns (outcome: Outcome)
      requires Valid() && ChunkIn(chunk, |faceList|)
      requires 0 <= cx < faceMatrix.Length0 && 0 <= cy < faceMatrix.Length1 && 0 <= cz < faceMatrix.Length2
      modifies this
      ensures Valid() && faceMatrix == old(faceMatrix) && textureList == old(textureList) && mtl == old(mtl)
      ensures size == old(size) && cubicalSize == old(cubicalSize) && verticesRequireReset == old(verticesRequireReset)
      ensures var e := CellExtent(box, Grid(), cx, cy, cz);
        (outcome.Pass? <==> Crop(old(vertexList), old(faceList), chunk, e).Success?)
        && (outcome.Pass? ==> (vertexList, faceList) == Crop(old(vertexList), old(faceList), chunk, e).value)
    {
      var e := CellExtent(box, Grid(), cx, cy, cz);
      var found := FindCropped(vertexList, faceList, chunk, e);
      if found.Failure? {
        return Fail(found.error);
      }
      CollectedOutside(vertexList, faceList, chunk, e);
      outcome := RepairChunk(chunk, found.value, e);
    }

    /** The second pass of `CropCube`: the faces repaired one by one. */
    method RepairChunk(chunk: seq<nat>, outs: seq<seq<Vertex>>, e: Extent) returns (outcome: Outcome)
      requires Valid() && ChunkIn(chunk, |faceList|) && |outs| == |chunk| && AllOutside(outs, e)
      modifies this
      ensures Valid() && faceMatrix == old(faceMatrix) && textureList == old(textureList) && mtl == old(mtl)
      ensures size == old(size) && cubicalSize == old(cubicalSize) && verticesRequireReset == old(verticesRequireReset)
      ensures var r := RepairFrom(old(vertexList), old(faceList), chunk, outs, e, 0);
        (outcome.Pass? <==> r.Success?) && (outcome.Pass? ==> (vertexList, faceList) == r.value)
    {
      var i := 0;
      while i < |chunk|
        invariant 0 <= i <= |chunk|
        invariant Valid() && |faceList| == |old(faceList)| && faceMatrix == old(faceMatrix)
        invariant textureList == old(textureList) && mtl == old(mtl) && size == old(size)
        invariant cubicalSize == old(cubicalSize) && verticesRequireReset == old(verticesRequireReset)
        invariant RepairFrom(old(vertexList), old(faceList), chunk, outs, e, 0)
          == RepairFrom(vertexList, faceList, chunk, outs, e, i)
      {
        var repaired := RepairAt(chunk, outs, e, i);
        if repaired.Fail? {
          return repaired;
        }
        i := i + 1;
      }
      outcome := Pass;
    }

    /** One face of the second pass of `CropCube`: the `i`-th face of the
        chunk repaired against its out-of-bound vertices. */
    method RepairAt(chunk: seq<nat>, outs: seq<seq<Vertex>>, e: Extent, i: nat) returns (outcome: Outcome)
      requires Valid() && ChunkIn(chunk, |faceList|) && |outs| == |chunk| && AllOutside(outs, e) && i < |chunk|
      modifies this
      ensures Valid() && |faceList| == |old(faceList)| && faceMatrix == old(faceMatrix)
      ensures textureList == old(textureList) && mtl == old(mtl) && size == old(size)
      ensures cubicalSize == old(cubicalSize) && verticesRequireReset == old(verticesRequireReset)
      ensures outcome.Fail? ==> RepairFrom(old(vertexList), old(faceList), chunk, outs, e, i).Failure?
      ensures outcome.Pass? ==>
        RepairFrom(old(vertexList), old(faceList), chunk, outs, e, i) == RepairFrom(vertexList, faceList, chunk, outs, e, i + 1)
    {
      var step := RepairFace(vertexList, faceList[chunk[i]], outs[i], e);
      if step.Failure? {
        return Fail(step.error);
      }
      RepairKeepsValid(Contents(), chunk[i], outs[i], e);
      vertexList, faceList := step.value.0, faceList[chunk[i] := step.value.1];
      outcome := Pass;
    }

    /** `WriteObjFormattedFile`: the header, then each required vertex
        written with the faces renumbered to it, then each required UV the
        same way, then the faces. */
    method WriteObjFormattedFile(mtlOverride: string, chunk: seq<nat>) returns (outcome: Outcome, lines: seq<ObjWriter.ObjLine>)
      requires Valid() && ChunkIn(chunk, |faceList|) && Increasing(chunk)
      modifies this
      ensures Valid() && verticesRequireReset
      ensures vertexList == old(vertexList) && textureList == old(textureList) && faceMatrix == old(faceMatrix)
      ensures size == old(size) && cubicalSize == old(cubicalSize) && mtl == old(mtl)
      ensures var w := ObjWriter.WriteObj(old(vertexList), old(textureList), old(faceList), chunk, mtlOverride, mtl);
        (outcome.Pass? <==> w.Success?) && (outcome.Pass? ==> (lines, faceList) == w.value)
    {
      var vs, uvs, faces := vertexList, textureList, faceList;
      verticesRequireReset := true;
      var faces';
      outcome, lines, faces' := WriteObjChunk(vs, uvs, faces, chunk, mtlOverride, mtl);
      assert ListsValid(Contents().(faces := faces')) && CellsIn(faceMatrix, |faces'|);
      faceList := faces';
    }

    /** `WriteEboFormattedFile`: the count, three corner records per face
        (the corrected back-reference rule), the end marker. */
    method WriteEboFormattedFile(chunk: seq<nat>) returns (outcome: Outcome, records: seq<Ebo.EboRecord>)
      requires ChunkIn(chunk, |faceList|)
      ensures outcome.Pass? <==> Ebo.Writable(vertexList, textureList, faceList, chunk)
      ensures outcome.Pass? ==> records == Ebo.Encode(vertexList, textureList, faceList, chunk)
    {
      if !Ebo.Writable(vertexList, textureList, faceList, chunk) {
        return Fail("ArgumentOutOfRangeException: a face of the chunk names a missing corner"), [];
      }
      records := EncodeChunk(vertexList, textureList, faceList, chunk);
      outcome := Pass;
    }

    /** `TransformUVs`: extent by extent, the UVs of the extent's faces
        moved by the extent's transforms, clones made for UVs another
        extent already moved. */
    method TransformUVs(ets: seq<UvTransforms.ExtentTransforms>) returns (outcome: Outcome)
      requires Valid()
      modifies this
      ensures Valid() && vertexList == old(vertexList) && faceMatrix == old(faceMatrix)
      ensures size == old(size) && cubicalSize == old(cubicalSize) && mtl == old(mtl)
      ensures verticesRequireReset == old(verticesRequireReset)
      ensures var r := UvTransforms.TransformAll(old(vertexList), old(textureList), old(faceList), ets);
        (outcome.Pass? <==> r.Success?) && (outcome.Pass? ==> (textureList, faceList) == r.value)
    {
      var n := 0;
      while n < |ets|
        invariant 0 <= n <= |ets|
        invariant Valid() && vertexList == old(vertexList) && faceMatrix == old(faceMatrix)
        invariant size == old(size) && cubicalSize == old(cubicalSize) && mtl == old(mtl)
        invariant verticesRequireReset == old(verticesRequireReset)
        invariant UvTransforms.TransformAll(vertexList, old(textureList), old(faceList), ets)
          == UvTransforms.TransformAll(vertexList, textureList, faceList, ets[n..])
      {
        TransformAllNext(vertexList, textureList, faceList, ets, n);
        outcome := TransformExtentPass(ets[n]);
        if outcome.Fail? {
          return;
        }
        n := n + 1;
      }
      assert ets[n..] == [];
      outcome := Pass;
    }

    /** One extent's pass of `TransformUVs`: the faces with a vertex in the
        extent, the UVs they use, each visited. */
    method TransformExtentPass(et: UvTransforms.ExtentTransforms) returns (outcome: Outcome)
      requires Valid()
      modifies this
      ensures Valid() && vertexList == old(vertexList) && faceMatrix == old(faceMatrix)
      ensures size == old(size) && cubicalSize == old(cubicalSize) && mtl == old(mtl)
      ensures verticesRequireReset == old(verticesRequireReset)
      ensures var r := UvTransforms.TransformExtent(vertexList, old(textureList), old(faceList), et);
        (outcome.Pass? <==> r.Success?) && (outcome.Pass? ==> (textureList, faceList) == r.value)
    {
      var r := TransformExtentValues(vertexList, textureList, faceList, et);
      if r.Failure? {
        return Fail(r.error);
      }
      UvTransforms.TransformExtentIndexed(vertexList, textureList, faceList, et);
      textureList, faceList := r.value.0, r.value.1;
      outcome := Pass;
    }

    /** `WriteSpecificCube`: the faces reverted if a write renumbered them,
        the cell's chunk cropped and written. The count of faces written
        (zero for an empty cell) is returned with the two outputs. */
    method WriteSpecificCube(cubeX: int, cubeY: int, cubeZ: int, forceCubical: bool, mtlOverride: string,
                             generateEbo: bool, generateObj: bool)
      returns (outcome: Outcome, count: int, objLines: seq<ObjWriter.ObjLine>, eboRecords: seq<Ebo.EboRecord>)
      requires Valid()
      modifies this
      ensures Valid() && faceMatrix == old(faceMatrix) && textureList == old(textureList)
      ensures (0 <= cubeX < faceMatrix.Length0 && 0 <= cubeY < faceMatrix.Length1 && 0 <= cubeZ < faceMatrix.Length2) ==>
        var box := if forceCubical then cubicalSize else size;
        var r := WriteCube(old(vertexList), textureList, old(faceList), faceMatrix[cubeX, cubeY, cubeZ],
                           CellExtent(box, Grid(), cubeX, cubeY, cubeZ), old(verticesRequireReset),
                           mtlOverride, mtl, generateEbo, generateObj);
        (outcome.Pass? <==> r.Success?)
        && (outcome.Pass? ==> r.value == CubeOutput(count, vertexList, faceList, objLines, eboRecords))
      ensures !(0 <= cubeX < faceMatrix.Length0 && 0 <= cubeY < faceMatrix.Length1 && 0 <= cubeZ < faceMatrix.Length2) ==>
        outcome.Fail?
    {
      count, objLines, eboRecords := 0, [], [];
      ResetFaces();
      if !(0 <= cubeX < faceMatrix.Length0 && 0 <= cubeY < faceMatrix.Length1 && 0 <= cubeZ < faceMatrix.Length2) {
        return Fail("IndexOutOfRangeException: no such cell"), count, objLines, eboRecords;
      }
      var chunk := faceMatrix[cubeX, cubeY, cubeZ];
      if chunk == [] {
        return Pass, count, objLines, eboRecords;
      }
      var box := if forceCubical then cubicalSize else size;
      outcome := CropCube(chunk, cubeX, cubeY, cubeZ, box);
      if outcome.Fail? {
        return;
      }
      outcome, count, objLines, eboRecords := WriteChunk(chunk, mtlOverride, generateEbo, generateObj);
    }

    /** The start of `WriteSpecificCube`: every face reverted to its loaded
        indices when an earlier write renumbered them. */
    method ResetFaces()
      requires Valid()
      modifies this
      ensures Valid() && !verticesRequireReset
      ensures faceList == (if old(verticesRequireReset) then RevertAll(old(faceList)) else old(faceList))
      ensures vertexList == old(vertexList) && textureList == old(textureList) && faceMatrix == old(faceMatrix)
      ensures size == old(size) && cubicalSize == old(cubicalSize) && mtl == old(mtl)
    {
      if verticesRequireReset {
        faceList := RevertAll(faceList);
      }
      verticesRequireReset := false;
    }

    /** The writes of `WriteSpecificCube` after the crop. */
    method WriteChunk(chunk: seq<nat>, mtlOverride: string, generateEbo: bool, generateObj: bool)
      returns (outcome: Outcome, count: int, objLines: seq<ObjWriter.ObjLine>, eboRecords: seq<Ebo.EboRecord>)
      requires Valid() && ChunkIn(chunk, |faceList|) && Increasing(chunk)
      modifies this
      ensures Valid() && faceMatrix == old(faceMatrix) && textureList == old(textureList) && vertexList == old(vertexList)
      ensures size == old(size) && cubicalSize == old(cubicalSize) && mtl == old(mtl)
      ensures var r := WriteCropped(vertexList, textureList, old(faceList), chunk, mtlOverride, mtl, generateEbo, generateObj);
        (outcome.Pass? <==> r.Success?)
        && (outcome.Pass? ==> r.value == CubeOutput(count, vertexList, faceList, objLines, eboRecords))
    {
      count, objLines, eboRecords := 0, [], [];
      if generateEbo {
        outcome, eboRecords := WriteEboFormattedFile(chunk);
        if outcome.Fail? {
          return;
        }
      }
      if generateObj {
        outcome, objLines := WriteObjFormattedFile(mtlOverride, chunk);
        if outcome.Fail? {
          return;
        }
      }
      count := |chunk|;
      outcome := Pass;
    }
  }

  /** A repair step keeps the lists valid. */
  lemma {:induction false} RepairKeepsValid(m: Lists, k: nat, cropped: seq<Vertex>, e: Extent)
    requires ListsValid(m) && k < |m.faces|
    requires forall j :: 0 <= j < |cropped| ==> !InExtent(cropped[j], e)
    requires RepairFace(m.vertices, m.faces[k], cropped, e).Success?
    ensures var step := RepairFace(m.vertices, m.faces[k], cropped, e).value;
      ListsValid(m.(vertices := step.0, faces := m.faces[k := step.1]))
  {
    RepairFaceSound(m.vertices, m.faces[k], cropped, e);
    var step := RepairFace(m.vertices, m.faces[k], cropped, e).value;
    forall n | 0 <= n < |step.0| ensures step.0[n].index == n + 1 {
      if n < |m.vertices| {
        assert step.0[n] == step.0[..|m.vertices|][n];
      }
    }
  }

  /** What the first pass collects lies outside the cell. */
  lemma {:induction false} CollectedOutside(vs: seq<Vertex>, faces: seq<FaceRec>, chunk: seq<nat>, e: Extent)
    requires ChunkIn(chunk, |faces|) && CollectCropped(vs, faces, chunk, e).Success?
    ensures AllOutside(CollectCropped(vs, faces, chunk, e).value, e)
  {
    var outs := CollectCropped(vs, faces, chunk, e).value;
    forall a, b | 0 <= a < |outs| && 0 <= b < |outs[a]| ensures !InExtent(outs[a][b], e) {
      assert outs[a] == OutOfBound(vs, faces[chunk[a]], e).value;
    }
  }

  /** The two passes and the face lines make up `WriteObj`. */
  lemma {:induction false} WriteObjSteps(vs: seq<Vertex>, uvs: seq<Uv>, faces0: seq<FaceRec>, faces1: seq<FaceRec>, faces2: seq<FaceRec>,
                      chunk: seq<nat>, mtlOverride: string, mtl: string)
    requires ChunkIn(chunk, |faces0|) && AllWellFormed(faces0)
    requires InList(ObjWriter.Required(faces0, chunk, ObjWriter.Positions), |vs|)
    requires InList(ObjWriter.Required(faces0, chunk, ObjWriter.TexCoords), |uvs|)
    requires var rv := ObjWriter.Required(faces0, chunk, ObjWriter.Positions);
      ObjWriter.Renumber(faces0, chunk, ObjWriter.Positions, ObjWriter.VertexKeys(vs), rv, 0) == Success(faces1)
    requires var rt := ObjWriter.Required(faces0, chunk, ObjWriter.TexCoords);
      ObjWriter.Renumber(faces1, chunk, ObjWriter.TexCoords, ObjWriter.UvKeys(uvs), rt, 0) == Success(faces2)
    ensures ObjWriter.WriteObj(vs, uvs, faces0, chunk, mtlOverride, mtl).Success?
    ensures ObjWriter.WriteObj(vs, uvs, faces0, chunk, mtlOverride, mtl).value
      == (ObjWriter.Header(mtlOverride, mtl)
          + ObjWriter.VertexLines(vs, ObjWriter.Required(faces0, chunk, ObjWriter.Positions))
          + ObjWriter.UvLines(uvs, ObjWriter.Required(faces0, chunk, ObjWriter.TexCoords))
          + ObjWriter.FaceLines(faces2, chunk), faces2)
  {
  }

  /** One step of a renumbering pass. */
  lemma {:induction false} RenumberNext(faces: seq<FaceRec>, chunk: seq<nat>, ch: ObjWriter.Channel, keys: seq<int>, required: seq<int>, i: nat)
    requires AllWellFormed(faces) && i < |required|
    ensures !(1 <= required[i] <= |keys|) ==> ObjWriter.Renumber(faces, chunk, ch, keys, required[i..], i).Failure?
    ensures 1 <= required[i] <= |keys| ==>
      ObjWriter.Renumber(faces, chunk, ch, keys, required[i..], i)
      == ObjWriter.Renumber(ObjWriter.RenumberStep(faces, chunk, ch, required[i], keys[required[i] - 1], i + 1),
                            chunk, ch, keys, required[i + 1..], i + 1)
  {
    assert required[i..][0] == required[i] && required[i..][1..] == required[i + 1..];
  }

  /** The loop invariant of a renumbering pass, carried over one turn. */
  lemma {:induction false} PassStep(faces0: seq<FaceRec>, r: seq<FaceRec>, chunk: seq<nat>, ch: ObjWriter.Channel,
                                    keys: seq<int>, required: seq<int>, i: nat, key: int)
    requires AllWellFormed(faces0) && AllWellFormed(r) && i < |required|
    requires 1 <= required[i] <= |keys| && key == keys[required[i] - 1]
    requires ObjWriter.Renumber(faces0, chunk, ch, keys, required, 0) == ObjWriter.Renumber(r, chunk, ch, keys, required[i..], i)
    ensures ObjWriter.Renumber(faces0, chunk, ch, keys, required, 0)
      == ObjWriter.Renumber(ObjWriter.RenumberStep(r, chunk, ch, required[i], key, i + 1), chunk, ch, keys, required[i + 1..], i + 1)
  {
    RenumberNext(r, chunk, ch, keys, required, i);
  }

  lemma {:induction false} VertexLinesSnoc(vs: seq<Vertex>, required: seq<int>, i: nat)
    requires i < |required| && InList(required[..i], |vs|) && 1 <= required[i] <= |vs|
    ensures InList(required[..i + 1], |vs|)
    ensures ObjWriter.VertexLines(vs, required[..i + 1])
      == ObjWriter.VertexLines(vs, required[..i]) + [ObjWriter.VertexLine(vs[required[i] - 1])]
  {
  }

  lemma {:induction false} UvLinesSnoc(uvs: seq<Uv>, required: seq<int>, i: nat)
    requires i < |required| && InList(required[..i], |uvs|) && 1 <= required[i] <= |uvs|
    ensures InList(required[..i + 1], |uvs|)
    ensures ObjWriter.UvLines(uvs, required[..i + 1])
      == ObjWriter.UvLines(uvs, required[..i]) + [ObjWriter.UvLine(uvs[required[i] - 1])]
  {
  }

  /** One step of the extent loop. */
  lemma {:induction false} TransformAllNext(vs: seq<Vertex>, uvs: seq<Uv>, faces: seq<FaceRec>, ets: seq<UvTransforms.ExtentTransforms>, n: nat)
    requires AllWellFormed(faces) && n < |ets|
    ensures var r := UvTransforms.TransformExtent(vs, uvs, faces, ets[n]);
      (r.Failure? ==> UvTransforms.TransformAll(vs, uvs, faces, ets[n..]).Failure?)
      && (r.Success? ==> UvTransforms.TransformAll(vs, uvs, faces, ets[n..])
                         == UvTransforms.TransformAll(vs, r.value.0, r.value.1, ets[n + 1..]))
  {
    assert ets[n..][0] == ets[n] && ets[n..][1..] == ets[n + 1..];
  }

  /** Renumbering one more face of the chunk changes that face alone. */
  lemma {:induction false} RenumberStepSnoc(faces: seq<FaceRec>, pre: seq<nat>, k: nat, ch: ObjWriter.Channel, i: int, key: int, newIndex: int)
    requires AllWellFormed(faces) && k < |faces| && k !in pre
    ensures var r := ObjWriter.RenumberStep(faces, pre, ch, i, key, newIndex);
      r[k] == faces[k]
      && ObjWriter.RenumberStep(faces, pre + [k], ch, i, key, newIndex)
         == (if i in ObjWriter.Cur(faces[k], ch) then r[k := ObjWriter.UpdateOn(faces[k], ch, key, newIndex)] else r)
  {
    var r := ObjWriter.RenumberStep(faces, pre, ch, i, key, newIndex);
    var r' := ObjWriter.RenumberStep(faces, pre + [k], ch, i, key, newIndex);
    forall n | 0 <= n < |faces| && n != k ensures r'[n] == r[n] {
      assert n in pre + [k] <==> n in pre;
    }
  }
}
