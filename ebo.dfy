/** The EBO form `WriteEboFormattedFile` of `PyriteLib/Obj.cs` writes: a
    16-bit face count, three corner records per face, and an end marker. A
    corner is written in full the first time its vertex appears, and as a
    back reference to an earlier corner (its 0-based position in the stream
    of corners) after that. Records stand for the bytes; the 32-bit floats
    are reals here.

    `EncodeAsWritten` is the writer as the source has it; `Encode` is the
    corrected writer the model uses, which `Decode` inverts. */
module Ebo {
  import opened Wrappers
  import opened Vectors
  import opened Vertices
  import opened Faces
  import opened Uvs
  import Seqs

  const FullTag: int := 255
  const BackRefTag: int := 0
  const BackRefUvTag: int := 64
  const EndTag: int := 128

  /** One record of the stream. */
  datatype EboRecord =
    | Count(faces: int)
    | Full(x: real, y: real, z: real, u: real, v: real)
    | BackRef(index: int)
    | BackRefUv(index: int, u: real, v: real)
    | End

  /** The tag byte a record starts with (the count has none). */
  function Tag(r: EboRecord): int
  {
    match r
    case Count(_) => -1
    case Full(_, _, _, _, _) => FullTag
    case BackRef(_) => BackRefTag
    case BackRefUv(_, _, _) => BackRefUvTag
    case End => EndTag
  }

  /** What a reader rebuilds for one corner: a position and a UV. */
  datatype Corner = Corner(pos: Vector3D, u: real, v: real)

  /** Every face of the chunk has three corners whose vertex and UV indices
      name entries of the lists: what the writer reads. */
  predicate Writable(vs: seq<Vertex>, uvs: seq<Uv>, faces: seq<FaceRec>, chunk: seq<nat>)
  {
    ChunkIn(chunk, |faces|)
    && forall j :: 0 <= j < |chunk| ==>
      |faces[chunk[j]].v| >= 3 && |faces[chunk[j]].vt| >= 3
      && (forall i :: 0 <= i < 3 ==> 1 <= faces[chunk[j]].v[i] <= |vs| && 1 <= faces[chunk[j]].vt[i] <= |uvs|)
  }

  /** The corner the `s`-th corner record stands for: corner `s % 3` of face
      `s / 3` of the chunk. */
  function Intended(vs: seq<Vertex>, uvs: seq<Uv>, faces: seq<FaceRec>, chunk: seq<nat>, s: nat): Corner
    requires Writable(vs, uvs, faces, chunk) && s < 3 * |chunk|
  {
    var f := faces[chunk[s / 3]];
    var uv := uvs[f.vt[s % 3] - 1];
    Corner(ToVector3D(vs[f.v[s % 3] - 1]), uv.x, uv.y)
  }

  function Corners(vs: seq<Vertex>, uvs: seq<Uv>, faces: seq<FaceRec>, chunk: seq<nat>): (r: seq<Corner>)
    requires Writable(vs, uvs, faces, chunk)
    ensures |r| == 3 * |chunk| && forall s :: 0 <= s < |r| ==> r[s] == Intended(vs, uvs, faces, chunk, s)
  {
    seq(3 * |chunk|, s requires 0 <= s < 3 * |chunk| => Intended(vs, uvs, faces, chunk, s))
  }

  /* ---------- the writer as written ---------- */

  /** The first of the chunk's first `fi` faces whose vertex list holds `x`. */
  function FirstFaceWith(faces: seq<FaceRec>, chunk: seq<nat>, fi: nat, x: int): (r: Option<nat>)
    requires ChunkIn(chunk, |faces|) && fi <= |chunk|
    ensures r.Some? ==> (r.value < fi && x in faces[chunk[r.value]].v
      && forall q :: 0 <= q < r.value ==> x !in faces[chunk[q]].v)
    ensures r.None? ==> forall q :: 0 <= q < fi ==> x !in faces[chunk[q]].v
  {
    if fi == 0 then None
    else
      match FirstFaceWith(faces, chunk, fi - 1, x)
      case Some(q) => Some(q)
      case None => if x in faces[chunk[fi - 1]].v then Some(fi - 1) else None
  }

  /** The first of the chunk's first `fi` faces holding vertex `x` and,
      anywhere in its UV list, UV `t`. */
  function FirstFaceWithBoth(faces: seq<FaceRec>, chunk: seq<nat>, fi: nat, x: int, t: int): (r: Option<nat>)
    requires ChunkIn(chunk, |faces|) && fi <= |chunk|
    ensures r.Some? ==> r.value < fi && x in faces[chunk[r.value]].v && t in faces[chunk[r.value]].vt
    ensures r.None? ==> forall q :: 0 <= q < fi ==> !(x in faces[chunk[q]].v && t in faces[chunk[q]].vt)
  {
    if fi == 0 then None
    else
      match FirstFaceWithBoth(faces, chunk, fi - 1, x, t)
      case Some(q) => Some(q)
      case None => if x in faces[chunk[fi - 1]].v && t in faces[chunk[fi - 1]].vt then Some(fi - 1) else None
  }

  /** The record the source writes for corner `i` of face `fi`: a back
      reference without UV when an earlier face holds both the vertex and
      (at any corner) the UV, one with the UV when an earlier face holds only
      the vertex, the full corner otherwise. */
  function CornerAsWritten(vs: seq<Vertex>, uvs: seq<Uv>, faces: seq<FaceRec>, chunk: seq<nat>, fi: nat, i: nat): EboRecord
    requires Writable(vs, uvs, faces, chunk) && fi < |chunk| && i < 3
  {
    var f := faces[chunk[fi]];
    var x, t := f.v[i], f.vt[i];
    match FirstFaceWith(faces, chunk, fi, x)
    case None =>
      var p := vs[x - 1];
      Full(p.x, p.y, p.z, uvs[t - 1].x, uvs[t - 1].y)
    case Some(q0) =>
      match FirstFaceWithBoth(faces, chunk, fi, x, t)
      case Some(q) => BackRef(3 * q + FirstIndex(faces[chunk[q]].v, x).value)
      case None => BackRefUv(3 * q0 + FirstIndex(faces[chunk[q0]].v, x).value, uvs[t - 1].x, uvs[t - 1].y)
  }

  /** The whole stream as written; the count is cast to 16 bits. */
  function EncodeAsWritten(vs: seq<Vertex>, uvs: seq<Uv>, faces: seq<FaceRec>, chunk: seq<nat>): (r: seq<EboRecord>)
    requires Writable(vs, uvs, faces, chunk)
    ensures |r| == 3 * |chunk| + 2 && r[0] == Count(|chunk| % 65536) && r[|r| - 1] == End
  {
    [Count(|chunk| % 65536)]
    + seq(3 * |chunk|, s requires 0 <= s < 3 * |chunk| => CornerAsWritten(vs, uvs, faces, chunk, s / 3, s % 3))
    + [End]
  }

  /* ---------- the reader ---------- */

  /** Reads corner records after `acc` up to the end marker; a back
      reference must name a corner already read. */
  function DecodeCorners(recs: seq<EboRecord>, acc: seq<Corner>): (r: Option<seq<Corner>>)
    decreases |recs|
  {
    if recs == [] then None
    else match recs[0]
      case End => if |recs| == 1 then Some(acc) else None
      case Count(_) => None
      case Full(x, y, z, u, v) => DecodeCorners(recs[1..], acc + [Corner(Vector3D(x, y, z), u, v)])
      case BackRef(i) =>
        if 0 <= i < |acc| then DecodeCorners(recs[1..], acc + [acc[i]]) else None
      case BackRefUv(i, u, v) =>
        if 0 <= i < |acc| then DecodeCorners(recs[1..], acc + [Corner(acc[i].pos, u, v)]) else None
  }

  /** A stream: the count, then the corners. */
  function Decode(recs: seq<EboRecord>): Option<(int, seq<Corner>)>
  {
    if recs != [] && recs[0].Count? then
      match DecodeCorners(recs[1..], [])
      case Some(cs) => Some((recs[0].faces, cs))
      case None => None
    else None
  }

  /* ---------- the corrected writer ---------- */

  /** The first corner before face `fi` with vertex `x` and UV `t` both. */
  function FirstSlotWith(faces: seq<FaceRec>, chunk: seq<nat>, n: nat, x: int, t: int): (r: Option<nat>)
    requires ChunkIn(chunk, |faces|) && n <= 3 * |chunk|
    requires forall j :: 0 <= j < |chunk| ==> |faces[chunk[j]].v| >= 3 && |faces[chunk[j]].vt| >= 3
    ensures r.Some? ==> (r.value < n && faces[chunk[r.value / 3]].v[r.value % 3] == x
      && faces[chunk[r.value / 3]].vt[r.value % 3] == t)
  {
    if n == 0 then None
    else
      match FirstSlotWith(faces, chunk, n - 1, x, t)
      case Some(s) => Some(s)
      case None =>
        var s := n - 1;
        if faces[chunk[s / 3]].v[s % 3] == x && faces[chunk[s / 3]].vt[s % 3] == t then Some(s) else None
  }

  /** The first corner before face `fi` with vertex `x`. */
  function FirstSlotWithVertex(faces: seq<FaceRec>, chunk: seq<nat>, n: nat, x: int): (r: Option<nat>)
    requires ChunkIn(chunk, |faces|) && n <= 3 * |chunk|
    requires forall j :: 0 <= j < |chunk| ==> |faces[chunk[j]].v| >= 3
    ensures r.Some? ==> r.value < n && faces[chunk[r.value / 3]].v[r.value % 3] == x
    ensures r.None? ==> forall s :: 0 <= s < n ==> faces[chunk[s / 3]].v[s % 3] != x
  {
    if n == 0 then None
    else
      match FirstSlotWithVertex(faces, chunk, n - 1, x)
      case Some(s) => Some(s)
      case None =>
        var s := n - 1;
        if faces[chunk[s / 3]].v[s % 3] == x then Some(s) else None
  }

  /** The corrected record for corner `i` of face `fi`: a back reference
      without UV only to an earlier corner with the same vertex AND the same
      UV, one with the UV to an earlier corner with the same vertex, the
      full corner otherwise. */
  function CornerRecord(vs: seq<Vertex>, uvs: seq<Uv>, faces: seq<FaceRec>, chunk: seq<nat>, fi: nat, i: nat): EboRecord
    requires Writable(vs, uvs, faces, chunk) && fi < |chunk| && i < 3
  {
    var f := faces[chunk[fi]];
    var x, t := f.v[i], f.vt[i];
    match FirstSlotWith(faces, chunk, 3 * fi, x, t)
    case Some(s) => BackRef(s)
    case None =>
      match FirstSlotWithVertex(faces, chunk, 3 * fi, x)
      case Some(s) => BackRefUv(s, uvs[t - 1].x, uvs[t - 1].y)
      case None =>
        var p := vs[x - 1];
        Full(p.x, p.y, p.z, uvs[t - 1].x, uvs[t - 1].y)
  }

  /** The three records of the `fi`-th chunk face, in corner order. */
  function FaceCorners(vs: seq<Vertex>, uvs: seq<Uv>, faces: seq<FaceRec>, chunk: seq<nat>, fi: int): seq<EboRecord>
    requires Writable(vs, uvs, faces, chunk) && 0 <= fi < |chunk|
  {
    [CornerRecord(vs, uvs, faces, chunk, fi, 0), CornerRecord(vs, uvs, faces, chunk, fi, 1), CornerRecord(vs, uvs, faces, chunk, fi, 2)]
  }

  /** The records of every chunk face, face by face. */
  function FaceRecords(vs: seq<Vertex>, uvs: seq<Uv>, faces: seq<FaceRec>, chunk: seq<nat>): (r: seq<seq<EboRecord>>)
    requires Writable(vs, uvs, faces, chunk)
    ensures |r| == |chunk| && forall fi :: 0 <= fi < |chunk| ==> |r[fi]| == 3
  {
    seq(|chunk|, fi requires 0 <= fi < |chunk| => FaceCorners(vs, uvs, faces, chunk, fi))
  }

  function CornerRecords(vs: seq<Vertex>, uvs: seq<Uv>, faces: seq<FaceRec>, chunk: seq<nat>): (r: seq<EboRecord>)
    requires Writable(vs, uvs, faces, chunk)
    ensures |r| == 3 * |chunk|
  {
    Seqs.FlattenThrees(FaceRecords(vs, uvs, faces, chunk));
    Seqs.Flatten(FaceRecords(vs, uvs, faces, chunk))
  }

  lemma {:induction false} FaceCornersAt(vs: seq<Vertex>, uvs: seq<Uv>, faces: seq<FaceRec>, chunk: seq<nat>, fi: int, i: int)
    requires Writable(vs, uvs, faces, chunk) && 0 <= fi < |chunk| && 0 <= i < 3
    ensures FaceCorners(vs, uvs, faces, chunk, fi)[i] == CornerRecord(vs, uvs, faces, chunk, fi, i)
  {
    if i == 0 {
    } else if i == 1 {
    } else {
    }
  }

  /** Corner `i` of the `fi`-th chunk face sits at position `3 * fi + i`. */
  lemma {:induction false} CornerRecordsAt(vs: seq<Vertex>, uvs: seq<Uv>, faces: seq<FaceRec>, chunk: seq<nat>, fi: int, i: int)
    requires Writable(vs, uvs, faces, chunk) && 0 <= fi < |chunk| && 0 <= i < 3
    ensures 3 * fi + i < |CornerRecords(vs, uvs, faces, chunk)|
    ensures CornerRecords(vs, uvs, faces, chunk)[3 * fi + i] == CornerRecord(vs, uvs, faces, chunk, fi, i)
  {
    Seqs.FlattenAt(FaceRecords(vs, uvs, faces, chunk), fi, i);
    FaceCornersAt(vs, uvs, faces, chunk, fi, i);
  }

  /** The corrected stream. */
  function Encode(vs: seq<Vertex>, uvs: seq<Uv>, faces: seq<FaceRec>, chunk: seq<nat>): (r: seq<EboRecord>)
    requires Writable(vs, uvs, faces, chunk)
    ensures |r| == 3 * |chunk| + 2 && r[0] == Count(|chunk| % 65536) && r[|r| - 1] == End
  {
    [Count(|chunk| % 65536)] + CornerRecords(vs, uvs, faces, chunk) + [End]
  }

  /** Record `r`, read after corners `cs[..s]`, yields corner `cs[s]`. */
  predicate ReadsBack(r: EboRecord, cs: seq<Corner>, s: nat)
    requires s < |cs|
  {
    match r
    case Full(x, y, z, u, v) => Corner(Vector3D(x, y, z), u, v) == cs[s]
    case BackRef(i) => 0 <= i < s && cs[i] == cs[s]
    case BackRefUv(i, u, v) => 0 <= i < s && Corner(cs[i].pos, u, v) == cs[s]
    case _ => false
  }

  /** A reader gets back every corner from records that each read back. */
  lemma {:induction false} DecodeFrom(recs: seq<EboRecord>, cs: seq<Corner>, s: nat)
    requires |recs| == |cs| && s <= |cs|
    requires forall k :: 0 <= k < |cs| ==> ReadsBack(recs[k], cs, k)
    ensures DecodeCorners(recs[s..] + [End], cs[..s]) == Some(cs)
    decreases |cs| - s
  {
    if s == |cs| {
      assert recs[s..] + [End] == [End];
      assert cs[..s] == cs;
    } else {
      DecodeFrom(recs, cs, s + 1);
      assert ReadsBack(recs[s], cs, s);
      var rest := recs[s..] + [End];
      assert rest[0] == recs[s] && rest[1..] == recs[s + 1..] + [End];
      assert cs[..s + 1] == cs[..s] + [cs[s]];
    }
  }

  /** Conversely, whatever a reader gets back extends what it had read, and
      every record read back its own corner. */
  lemma {:induction false} DecodeReads(recs: seq<EboRecord>, acc: seq<Corner>, cs: seq<Corner>)
    requires DecodeCorners(recs, acc) == Some(cs)
    ensures |recs| >= 1 && |cs| == |acc| + |recs| - 1 && cs[..|acc|] == acc
    ensures forall k :: 0 <= k < |recs| - 1 ==> ReadsBack(recs[k], cs, |acc| + k)
    decreases |recs|
  {
    if recs[0].End? {
      assert cs == acc;
    } else {
      var next := match recs[0]
        case Full(x, y, z, u, v) => acc + [Corner(Vector3D(x, y, z), u, v)]
        case BackRef(i) => acc + [acc[i]]
        case BackRefUv(i, u, v) => acc + [Corner(acc[i].pos, u, v)]
        case _ => acc;
      assert DecodeCorners(recs[1..], next) == Some(cs);
      DecodeReads(recs[1..], next, cs);
      assert cs[..|acc|] == cs[..|next|][..|acc|];
      assert cs[|acc|] == next[|acc|];
      forall k | 0 <= k < |recs| - 1
        ensures ReadsBack(recs[k], cs, |acc| + k)
      {
        if k > 0 {
          assert recs[k] == recs[1..][k - 1];
        } else if recs[0].BackRef? || recs[0].BackRefUv? {
          assert cs[recs[0].index] == acc[recs[0].index];
        }
      }
    }
  }

  /** Each corrected record, read after the corners before it, yields its
      own corner. */
  lemma {:induction false} CornerRecordDecodes(vs: seq<Vertex>, uvs: seq<Uv>, faces: seq<FaceRec>, chunk: seq<nat>, s: nat)
    requires Writable(vs, uvs, faces, chunk) && s < 3 * |chunk|
    ensures ReadsBack(CornerRecord(vs, uvs, faces, chunk, s / 3, s % 3), Corners(vs, uvs, faces, chunk), s)
  {
    var fi, i := s / 3, s % 3;
    assert 3 * fi <= s;
  }

  /** The round trip: a reader of the corrected stream gets back the count
      (cast to 16 bits) and every corner of every face, position and UV. */
  lemma {:induction false} EncodeDecode(vs: seq<Vertex>, uvs: seq<Uv>, faces: seq<FaceRec>, chunk: seq<nat>)
    requires Writable(vs, uvs, faces, chunk)
    ensures Decode(Encode(vs, uvs, faces, chunk)) == Some((|chunk| % 65536, Corners(vs, uvs, faces, chunk)))
  {
    var recs := CornerRecords(vs, uvs, faces, chunk);
    var cs := Corners(vs, uvs, faces, chunk);
    forall k | 0 <= k < |cs|
      ensures ReadsBack(recs[k], cs, k)
    {
      CornerRecordsAt(vs, uvs, faces, chunk, k / 3, k % 3);
      CornerRecordDecodes(vs, uvs, faces, chunk, k);
    }
    DecodeFrom(recs, cs, 0);
    assert Encode(vs, uvs, faces, chunk)[1..] == recs[0..] + [End];
    assert Corners(vs, uvs, faces, chunk)[..0] == [];
  }

  /** The corrected writer writes a vertex in full exactly once: for the
      first corner that uses it. */
  lemma {:induction false} FullOnlyFirst(vs: seq<Vertex>, uvs: seq<Uv>, faces: seq<FaceRec>, chunk: seq<nat>, s: nat)
    requires Writable(vs, uvs, faces, chunk) && s < 3 * |chunk|
    ensures CornerRecord(vs, uvs, faces, chunk, s / 3, s % 3).Full?
      <==> forall p :: 0 <= p < 3 * (s / 3) ==> faces[chunk[p / 3]].v[p % 3] != faces[chunk[s / 3]].v[s % 3]
  {
    var fi := s / 3;
    var x, t := faces[chunk[fi]].v[s % 3], faces[chunk[fi]].vt[s % 3];
    var a := FirstSlotWith(faces, chunk, 3 * fi, x, t);
    if a.Some? {
      assert faces[chunk[a.value / 3]].v[a.value % 3] == x;
    }
  }

  /* ---------- what goes wrong as written ---------- */

  /** A chunk of two triangles sharing vertex 1, where the second face uses
      it with UV 2, a UV the first face holds at another corner. */
  function ExampleVertices(): seq<Vertex>
  {
    seq(5, n requires 0 <= n < 5 => Vertex(n + 1, n as real, 0.0, 0.0))
  }

  function ExampleUvs(): seq<Uv>
  {
    seq(7, n requires 0 <= n < 7 => Uv(n as real, 0.0, n as real, 0.0, n + 1, false))
  }

  function ExampleFaces(): seq<FaceRec>
  {
    [Loaded([1, 2, 3], [1, 2, 3]), Loaded([1, 4, 5], [2, 6, 7])]
  }

  lemma {:induction false} ExampleWritable()
    ensures Writable(ExampleVertices(), ExampleUvs(), ExampleFaces(), [0, 1])
  {
    var faces := ExampleFaces();
    assert faces[0].v == [1, 2, 3] && faces[0].vt == [1, 2, 3];
    assert faces[1].v == [1, 4, 5] && faces[1].vt == [2, 6, 7];
  }

  /** The source writes the second face's first corner as a back reference
      without UV to the first corner of the stream. */
  lemma {:induction false} AsWrittenBackRef()
    ensures Writable(ExampleVertices(), ExampleUvs(), ExampleFaces(), [0, 1])
    ensures EncodeAsWritten(ExampleVertices(), ExampleUvs(), ExampleFaces(), [0, 1])[4] == BackRef(0)
  {
    var vs, uvs, faces, chunk := ExampleVertices(), ExampleUvs(), ExampleFaces(), [0, 1];
    ExampleWritable();
    assert FirstFaceWith(faces, chunk, 1, 1) == Some(0);
    assert FirstFaceWithBoth(faces, chunk, 1, 1, 2) == Some(0);
    assert FirstIndex(faces[0].v, 1) == Some(0);
    assert CornerAsWritten(vs, uvs, faces, chunk, 1, 0) == BackRef(0);
  }

  /** So a reader would give that corner UV 1 where the face has UV 2: the
      stream as written does not read back as the chunk. */
  lemma {:induction false} AsWrittenLosesUv()
    ensures Writable(ExampleVertices(), ExampleUvs(), ExampleFaces(), [0, 1])
    ensures var recs := EncodeAsWritten(ExampleVertices(), ExampleUvs(), ExampleFaces(), [0, 1]);
      recs[4] == BackRef(0)
      && Decode(recs) != Some((2, Corners(ExampleVertices(), ExampleUvs(), ExampleFaces(), [0, 1])))
  {
    var vs, uvs, faces, chunk := ExampleVertices(), ExampleUvs(), ExampleFaces(), [0, 1];
    AsWrittenBackRef();
    var recs := EncodeAsWritten(vs, uvs, faces, chunk);
    var cs := Corners(vs, uvs, faces, chunk);
    if Decode(recs) == Some((2, cs)) {
      DecodeReads(recs[1..], [], cs);
      assert false;
    }
  }

  /** What the source does get right, for triangles: every back reference
      points at an earlier corner with the same vertex, so positions read
      back correctly; only a UV can come out wrong. */
  lemma {:induction false} AsWrittenRefersToVertex(vs: seq<Vertex>, uvs: seq<Uv>, faces: seq<FaceRec>, chunk: seq<nat>, s: nat)
    requires Writable(vs, uvs, faces, chunk) && s < 3 * |chunk|
    requires forall j :: 0 <= j < |chunk| ==> |faces[chunk[j]].v| == 3
    ensures var r := CornerAsWritten(vs, uvs, faces, chunk, s / 3, s % 3);
      (r.BackRef? || r.BackRefUv?) ==>
        0 <= r.index < 3 * (s / 3) && faces[chunk[r.index / 3]].v[r.index % 3] == faces[chunk[s / 3]].v[s % 3]
  {
    var fi, i := s / 3, s % 3;
    var x, t := faces[chunk[fi]].v[i], faces[chunk[fi]].vt[i];
    var r := CornerAsWritten(vs, uvs, faces, chunk, fi, i);
    if r.BackRef? {
      var q := FirstFaceWithBoth(faces, chunk, fi, x, t).value;
      var k := FirstIndex(faces[chunk[q]].v, x).value;
      assert r.index == 3 * q + k && k < 3;
      assert r.index / 3 == q && r.index % 3 == k;
    } else if r.BackRefUv? {
      var q := FirstFaceWith(faces, chunk, fi, x).value;
      var k := FirstIndex(faces[chunk[q]].v, x).value;
      assert r.index == 3 * q + k && k < 3;
      assert r.index / 3 == q && r.index % 3 == k;
    }
  }
}
