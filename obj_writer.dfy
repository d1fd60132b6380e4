/** `WriteObjFormattedFile` of `PyriteLib/Obj.cs` as values: the indices a
    chunk needs, the renumbering of its faces to a dense 1-based numbering
    of the vertices and UVs written, and the lines of the file. */
module ObjWriter {
  import opened Wrappers
  import opened Vertices
  import opened Faces
  import opened Uvs

  /** The two index lists of a face, which the writer renumbers alike. */
  datatype Channel = Positions | TexCoords

  function Cur(f: FaceRec, ch: Channel): seq<int>
  {
    if ch == Positions then f.v else f.vt
  }

  function Orig(f: FaceRec, ch: Channel): seq<int>
  {
    if ch == Positions then f.origV else f.origVt
  }

  /** `UpdateVertexIndex` or `UpdateTextureVertexIndex`. */
  function UpdateOn(f: FaceRec, ch: Channel, oldIndex: int, newIndex: int): (r: FaceRec)
    requires WellFormed(f)
    ensures WellFormed(r)
  {
    if ch == Positions then UpdateVertex(f, oldIndex, newIndex) else UpdateTexture(f, oldIndex, newIndex)
  }

  /** `SelectMany` over the chunk: every index of the channel, face by face. */
  function Gather(faces: seq<FaceRec>, chunk: seq<nat>, ch: Channel): (r: seq<int>)
    requires ChunkIn(chunk, |faces|)
    ensures forall x :: x in r <==> exists j :: 0 <= j < |chunk| && x in Cur(faces[chunk[j]], ch)
  {
    if chunk == [] then []
    else
      var init := chunk[..|chunk| - 1];
      var r := Gather(faces, init, ch) + Cur(faces[chunk[|chunk| - 1]], ch);
      assert forall j :: 0 <= j < |init| ==> init[j] == chunk[j];
      r
  }

  predicate NoDup(s: seq<int>)
  {
    forall i, j :: 0 <= i < j < |s| ==> s[i] != s[j]
  }

  /** `Distinct`: the first occurrence of each index, in order. */
  function Dedup(s: seq<int>): (r: seq<int>)
    ensures forall x :: x in r <==> x in s
    ensures NoDup(r)
  {
    if s == [] then []
    else
      var d := Dedup(s[..|s| - 1]);
      var x := s[|s| - 1];
      assert forall y :: y in s <==> y in s[..|s| - 1] || y == x;
      if x in d then d else d + [x]
  }

  /** Every entry's own index field is its 1-based position, as the loader
      and every append keep it. */
  predicate IndexedKeys(keys: seq<int>)
  {
    forall n :: 0 <= n < |keys| ==> keys[n] == n + 1
  }

  /** One turn of the writer's loop: the chunk faces that currently refer to
      `i` get the entry loaded as `key` renumbered to `newIndex`. */
  function RenumberStep(faces: seq<FaceRec>, chunk: seq<nat>, ch: Channel, i: int, key: int, newIndex: int): (r: seq<FaceRec>)
    requires AllWellFormed(faces)
    ensures |r| == |faces| && AllWellFormed(r)
  {
    seq(|faces|, k requires 0 <= k < |faces| =>
      if k in chunk && i in Cur(faces[k], ch) then UpdateOn(faces[k], ch, key, newIndex) else faces[k])
  }

  /** The writer's loop over the required indices from the `next`-th on; an
      index outside the list is the exception the source throws. */
  function Renumber(faces: seq<FaceRec>, chunk: seq<nat>, ch: Channel, keys: seq<int>, required: seq<int>, next: int): (r: Result<seq<FaceRec>>)
    requires AllWellFormed(faces)
    ensures r.Success? ==> |r.value| == |faces| && AllWellFormed(r.value)
    ensures r.Success? <==> forall x :: x in required ==> 1 <= x <= |keys|
    decreases |required|
  {
    if required == [] then Success(faces)
    else
      var i := required[0];
      if !(1 <= i <= |keys|) then
        assert i in required;
        Failure("ArgumentOutOfRangeException: index outside the list")
      else
        var r := Renumber(RenumberStep(faces, chunk, ch, i, keys[i - 1], next + 1), chunk, ch, keys, required[1..], next + 1);
        assert forall x :: x in required <==> x == i || x in required[1..];
        r
  }

  /** What renumbering a channel leaves alone: the other channel, the
      original lists, the shape, and every face outside the chunk. */
  predicate KeepsBut(faces: seq<FaceRec>, faces': seq<FaceRec>, chunk: seq<nat>, ch: Channel)
  {
    |faces'| == |faces|
    && (forall k :: 0 <= k < |faces| ==>
          faces'[k].origV == faces[k].origV && faces'[k].origVt == faces[k].origVt
          && |faces'[k].v| == |faces[k].v|
          && (ch == Positions ==> faces'[k].vt == faces[k].vt)
          && (ch == TexCoords ==> faces'[k].v == faces[k].v))
    && (forall k :: 0 <= k < |faces| && k !in chunk ==> faces'[k] == faces[k])
  }

  lemma {:induction false} RenumberKeeps(faces: seq<FaceRec>, chunk: seq<nat>, ch: Channel, keys: seq<int>, required: seq<int>, next: int)
    requires AllWellFormed(faces) && Renumber(faces, chunk, ch, keys, required, next).Success?
    ensures KeepsBut(faces, Renumber(faces, chunk, ch, keys, required, next).value, chunk, ch)
    decreases |required|
  {
    if required != [] {
      var i := required[0];
      var step := RenumberStep(faces, chunk, ch, i, keys[i - 1], next + 1);
      RenumberKeeps(step, chunk, ch, keys, required[1..], next + 1);
    }
  }

  /** Where a loaded index ends up after the first `p` required indices were
      renumbered: its 1-based position among the required ones if it was
      among those, itself otherwise. */
  function Moved(required: seq<int>, p: nat, x: int): int
    requires p <= |required|
  {
    match FirstIndex(required[..p], x)
    case Some(n) => n + 1
    case None => x
  }

  /** Corner `c` of the channel is the first corner loaded with its index:
      the one an update keyed on that loaded index reaches. */
  predicate FirstLoaded(f: FaceRec, ch: Channel, c: int)
  {
    0 <= c < |Orig(f, ch)| && forall d :: 0 <= d < c ==> Orig(f, ch)[d] != Orig(f, ch)[c]
  }

  /** An update reaches corner `c` exactly when `c` is the first corner
      loaded with the index updated; no loaded list changes, nor the other
      channel. */
  lemma {:induction false} FirstLoadedUpdate(f: FaceRec, ch: Channel, key: int, newIndex: int, c: int)
    requires WellFormed(f) && 0 <= c < |Cur(f, ch)|
    ensures var g := UpdateOn(f, ch, key, newIndex);
      |Cur(g, ch)| == |Cur(f, ch)| && g.origV == f.origV && g.origVt == f.origVt
      && Cur(g, ch)[c] == (if Orig(f, ch)[c] == key && FirstLoaded(f, ch, c) then newIndex else Cur(f, ch)[c])
      && (ch == Positions ==> g.vt == f.vt) && (ch == TexCoords ==> g.v == f.v)
  {
  }

  lemma {:induction false} MovedNext(required: seq<int>, p: nat, x: int)
    requires NoDup(required) && p < |required|
    ensures x == required[p] ==> Moved(required, p, x) == x && Moved(required, p + 1, x) == p + 1
    ensures x != required[p] ==> Moved(required, p + 1, x) == Moved(required, p, x)
  {
    var a, b := required[..p], required[..p + 1];
    assert b == a + [required[p]];
    if x == required[p] {
      assert x !in a;
      assert FirstIndex(b, x) == Some(p);
    } else {
      match FirstIndex(a, x)
      case Some(n) =>
        assert FirstIndex(b, x) == Some(n);
      case None =>
        assert x !in b;
    }
  }

  /** The loop from the `p`-th required index is one turn, then the loop
      from the next index; with indexed keys the entry renumbered is the
      index itself. */
  lemma {:induction false} RenumberUnfold(faces: seq<FaceRec>, chunk: seq<nat>, ch: Channel, keys: seq<int>, required: seq<int>, p: nat)
    requires AllWellFormed(faces) && IndexedKeys(keys) && p < |required| && 1 <= required[p] <= |keys|
    ensures Renumber(faces, chunk, ch, keys, required[p..], p)
      == Renumber(RenumberStep(faces, chunk, ch, required[p], required[p], p + 1), chunk, ch, keys, required[p + 1..], p + 1)
  {
    var i := required[p];
    assert required[p..][0] == i && required[p..][1..] == required[p + 1..];
    assert keys[i - 1] == i;
  }

  /** One turn of the writer's loop, for one corner of a chunk face: a
      first-loaded corner at `Moved` of its loaded index stays so; any other
      corner is reached only when it is first loaded with the index of the
      turn. */
  lemma {:induction false} CornerStep(faces: seq<FaceRec>, chunk: seq<nat>, ch: Channel, required: seq<int>, p: nat, k: nat, c: nat)
    requires AllWellFormed(faces) && NoDup(required) && p < |required|
    requires k < |faces| && c < |Orig(faces[k], ch)|
    ensures var step := RenumberStep(faces, chunk, ch, required[p], required[p], p + 1);
      Orig(step[k], ch) == Orig(faces[k], ch) && |Cur(step[k], ch)| == |Cur(faces[k], ch)|
      && (FirstLoaded(faces[k], ch, c) && k in chunk && Cur(faces[k], ch)[c] == Moved(required, p, Orig(faces[k], ch)[c])
          ==> Cur(step[k], ch)[c] == Moved(required, p + 1, Orig(faces[k], ch)[c]))
      && (!FirstLoaded(faces[k], ch, c) || Orig(faces[k], ch)[c] != required[p] ==> Cur(step[k], ch)[c] == Cur(faces[k], ch)[c])
  {
    var i := required[p];
    var f := faces[k];
    var x := Orig(f, ch)[c];
    var step := RenumberStep(faces, chunk, ch, i, i, p + 1);
    MovedNext(required, p, x);
    FirstLoadedUpdate(f, ch, i, p + 1, c);
    assert step[k] == (if k in chunk && i in Cur(f, ch) then UpdateOn(f, ch, i, p + 1) else f);
    if FirstLoaded(f, ch, c) && k in chunk && Cur(f, ch)[c] == Moved(required, p, x) && x == i {
      assert Cur(f, ch)[c] == i;
    }
  }

  /** Renumbering from the `p`-th required index on keeps a first-loaded
      corner of a chunk face at `Moved` of its loaded index to the end. */
  lemma {:induction false} CornerTracks(faces: seq<FaceRec>, chunk: seq<nat>, ch: Channel, keys: seq<int>, required: seq<int>, p: nat, k: nat, c: nat)
    requires AllWellFormed(faces) && IndexedKeys(keys) && NoDup(required) && p <= |required|
    requires forall x :: x in required ==> 1 <= x <= |keys|
    requires k < |faces| && k in chunk && FirstLoaded(faces[k], ch, c)
    requires Cur(faces[k], ch)[c] == Moved(required, p, Orig(faces[k], ch)[c])
    ensures Renumber(faces, chunk, ch, keys, required[p..], p).Success?
    ensures var f := Renumber(faces, chunk, ch, keys, required[p..], p).value[k];
      Orig(f, ch) == Orig(faces[k], ch) && c < |Cur(f, ch)|
      && Cur(f, ch)[c] == Moved(required, |required|, Orig(faces[k], ch)[c])
    decreases |required| - p
  {
    if p < |required| {
      var i := required[p];
      var step := RenumberStep(faces, chunk, ch, i, i, p + 1);
      assert i in required;
      RenumberUnfold(faces, chunk, ch, keys, required, p);
      CornerStep(faces, chunk, ch, required, p, k, c);
      CornerTracks(step, chunk, ch, keys, required, p + 1, k, c);
    } else {
      assert required[p..] == [];
    }
  }

  /** How the writer's updates, keyed on loaded indices, miss a corner: a
      corner that is not the first loaded with its index, or whose loaded
      index is not among the indices still to be renumbered, keeps whatever
      index it holds, even one the writer gives a different line. */
  lemma {:induction false} CornerKept(faces: seq<FaceRec>, chunk: seq<nat>, ch: Channel, keys: seq<int>, required: seq<int>, p: nat, k: nat, c: nat)
    requires AllWellFormed(faces) && IndexedKeys(keys) && NoDup(required) && p <= |required|
    requires forall x :: x in required ==> 1 <= x <= |keys|
    requires k < |faces| && c < |Orig(faces[k], ch)|
    requires !FirstLoaded(faces[k], ch, c) || Orig(faces[k], ch)[c] !in required[p..]
    ensures Renumber(faces, chunk, ch, keys, required[p..], p).Success?
    ensures var f := Renumber(faces, chunk, ch, keys, required[p..], p).value[k];
      Orig(f, ch) == Orig(faces[k], ch) && c < |Cur(f, ch)| && Cur(f, ch)[c] == Cur(faces[k], ch)[c]
    decreases |required| - p
  {
    if p < |required| {
      var i := required[p];
      var step := RenumberStep(faces, chunk, ch, i, i, p + 1);
      assert i in required;
      assert required[p..] == [i] + required[p + 1..];
      RenumberUnfold(faces, chunk, ch, keys, required, p);
      CornerStep(faces, chunk, ch, required, p, k, c);
      CornerKept(step, chunk, ch, keys, required, p + 1, k, c);
    } else {
      assert required[p..] == [];
    }
  }

  /** The point of the renumbering, for one corner of a chunk face: a corner
      that holds the index it was loaded with, and is the first corner
      loaded with it, ends at a position `n` among the `|required|` entries
      written, and the `n`-th entry written is the one it was loaded with. */
  lemma {:induction false} RenumberDense(faces: seq<FaceRec>, chunk: seq<nat>, ch: Channel, keys: seq<int>, required: seq<int>, k: nat, c: nat)
    requires AllWellFormed(faces) && IndexedKeys(keys) && NoDup(required)
    requires forall x :: x in required ==> 1 <= x <= |keys|
    requires k < |faces| && k in chunk && FirstLoaded(faces[k], ch, c)
    requires Cur(faces[k], ch)[c] == Orig(faces[k], ch)[c] && Orig(faces[k], ch)[c] in required
    ensures Renumber(faces, chunk, ch, keys, required, 0).Success?
    ensures var f := Renumber(faces, chunk, ch, keys, required, 0).value[k];
      c < |Cur(f, ch)| && 1 <= Cur(f, ch)[c] <= |required| && required[Cur(f, ch)[c] - 1] == Orig(faces[k], ch)[c]
  {
    assert required[..0] == [] && required[0..] == required;
    CornerTracks(faces, chunk, ch, keys, required, 0, k, c);
    MovedAll(required, Orig(faces[k], ch)[c]);
  }

  /** Once every required index is done, a required index has moved to its
      position among them. */
  lemma {:induction false} MovedAll(required: seq<int>, x: int)
    requires x in required
    ensures 1 <= Moved(required, |required|, x) <= |required| && required[Moved(required, |required|, x) - 1] == x
  {
    assert required[..|required|] == required;
  }

  /* ---------- the file ---------- */

  /** A line of the written file: text the source spells out, or a vertex,
      UV or face written through its own `ToString` (for a face,
      `FaceToString`, which reads back as the same face). */
  datatype ObjLine = TextLine(text: string) | VertexLine(vertex: Vertex) | UvLine(uv: Uv) | FaceLine(face: FaceRec)

  const HeaderComment: string := "# Generated by Cuber"

  /** The header: the comment, then a material library line naming the
      override if there is one, else the library the file was loaded with,
      else none. */
  function Header(mtlOverride: string, mtl: string): (r: seq<ObjLine>)
    ensures |r| == (if mtlOverride == "" && mtl == "" then 1 else 2)
    ensures r[0] == TextLine(HeaderComment)
    ensures mtlOverride != "" ==> r[1] == TextLine("mtllib " + mtlOverride)
    ensures mtlOverride == "" && mtl != "" ==> r[1] == TextLine("mtllib " + mtl)
  {
    [TextLine(HeaderComment)]
    + (if mtlOverride != "" then [TextLine("mtllib " + mtlOverride)]
       else if mtl != "" then [TextLine("mtllib " + mtl)]
       else [])
  }

  function VertexKeys(vs: seq<Vertex>): (r: seq<int>)
    ensures |r| == |vs| && forall n :: 0 <= n < |vs| ==> r[n] == vs[n].index
  {
    seq(|vs|, n requires 0 <= n < |vs| => vs[n].index)
  }

  function UvKeys(uvs: seq<Uv>): (r: seq<int>)
    ensures |r| == |uvs| && forall n :: 0 <= n < |uvs| ==> r[n] == uvs[n].index
  {
    seq(|uvs|, n requires 0 <= n < |uvs| => uvs[n].index)
  }

  /** The lines of the required entries, in the order they were numbered. */
  function VertexLines(vs: seq<Vertex>, required: seq<int>): (r: seq<ObjLine>)
    requires forall j :: 0 <= j < |required| ==> 1 <= required[j] <= |vs|
    ensures |r| == |required| && forall j :: 0 <= j < |r| ==> r[j] == VertexLine(vs[required[j] - 1])
  {
    seq(|required|, j requires 0 <= j < |required| => VertexLine(vs[required[j] - 1]))
  }

  function UvLines(uvs: seq<Uv>, required: seq<int>): (r: seq<ObjLine>)
    requires forall j :: 0 <= j < |required| ==> 1 <= required[j] <= |uvs|
    ensures |r| == |required| && forall j :: 0 <= j < |r| ==> r[j] == UvLine(uvs[required[j] - 1])
  {
    seq(|required|, j requires 0 <= j < |required| => UvLine(uvs[required[j] - 1]))
  }

  function FaceLines(faces: seq<FaceRec>, chunk: seq<nat>): (r: seq<ObjLine>)
    requires ChunkIn(chunk, |faces|) && AllWellFormed(faces)
    ensures |r| == |chunk| && forall j :: 0 <= j < |r| ==> r[j] == FaceLine(faces[chunk[j]])
  {
    seq(|chunk|, j requires 0 <= j < |chunk| => FaceLine(faces[chunk[j]]))
  }

  /** The indices of a channel the chunk needs, each once, in first-use
      order. */
  function Required(faces: seq<FaceRec>, chunk: seq<nat>, ch: Channel): seq<int>
    requires ChunkIn(chunk, |faces|)
  {
    Dedup(Gather(faces, chunk, ch))
  }

  /** The faces after both renumbering passes, vertices first. */
  function RenumberAll(vs: seq<Vertex>, uvs: seq<Uv>, faces: seq<FaceRec>, chunk: seq<nat>): (r: Result<seq<FaceRec>>)
    requires ChunkIn(chunk, |faces|) && AllWellFormed(faces)
    ensures r.Success? ==> |r.value| == |faces| && AllWellFormed(r.value)
  {
    match Renumber(faces, chunk, Positions, VertexKeys(vs), Required(faces, chunk, Positions), 0)
    case Failure(err) => Failure(err)
    case Success(f1) => Renumber(f1, chunk, TexCoords, UvKeys(uvs), Required(faces, chunk, TexCoords), 0)
  }

  /** Both passes succeed exactly when every required vertex and UV index
      names an entry of its list. */
  lemma {:induction false} RenumberAllSucceeds(vs: seq<Vertex>, uvs: seq<Uv>, faces: seq<FaceRec>, chunk: seq<nat>)
    requires ChunkIn(chunk, |faces|) && AllWellFormed(faces)
    ensures RenumberAll(vs, uvs, faces, chunk).Success? <==>
      (forall x :: x in Required(faces, chunk, Positions) ==> 1 <= x <= |vs|)
      && (forall x :: x in Required(faces, chunk, TexCoords) ==> 1 <= x <= |uvs|)
  {
    var r1 := Renumber(faces, chunk, Positions, VertexKeys(vs), Required(faces, chunk, Positions), 0);
    if r1.Success? {
      assert RenumberAll(vs, uvs, faces, chunk)
        == Renumber(r1.value, chunk, TexCoords, UvKeys(uvs), Required(faces, chunk, TexCoords), 0);
    }
  }

  /** `WriteObjFormattedFile` on values: the lines of the file and the faces
      after renumbering. */
  function WriteObj(vs: seq<Vertex>, uvs: seq<Uv>, faces: seq<FaceRec>, chunk: seq<nat>, mtlOverride: string, mtl: string): Result<(seq<ObjLine>, seq<FaceRec>)>
    requires ChunkIn(chunk, |faces|) && AllWellFormed(faces)
  {
    match RenumberAll(vs, uvs, faces, chunk)
    case Failure(err) => Failure(err)
    case Success(f2) =>
      var rv, rt := Required(faces, chunk, Positions), Required(faces, chunk, TexCoords);
      assert forall j :: 0 <= j < |rv| ==> rv[j] in rv;
      assert forall j :: 0 <= j < |rt| ==> rt[j] in rt;
      Success((Header(mtlOverride, mtl) + VertexLines(vs, rv) + UvLines(uvs, rt) + FaceLines(f2, chunk), f2))
  }

  /** Every index of the channel in the chunk's faces lies in `1..n`. */
  predicate ChunkRefsIn(faces: seq<FaceRec>, chunk: seq<nat>, ch: Channel, n: int)
    requires ChunkIn(chunk, |faces|)
  {
    forall j, x :: 0 <= j < |chunk| && x in Cur(faces[chunk[j]], ch) ==> 1 <= x <= n
  }

  lemma {:induction false} RequiredIn(faces: seq<FaceRec>, chunk: seq<nat>, ch: Channel, n: int)
    requires ChunkIn(chunk, |faces|) && ChunkRefsIn(faces, chunk, ch, n)
    ensures forall x :: x in Required(faces, chunk, ch) ==> 1 <= x <= n
    ensures var r := Required(faces, chunk, ch); forall i :: 0 <= i < |r| ==> 1 <= r[i] <= n
  {
    var r := Required(faces, chunk, ch);
    assert forall i :: 0 <= i < |r| ==> r[i] in r;
  }

  /** Corner `c` of the face as written (`g`) picks out, among the vertex
      lines starting at `h` and the UV lines after them, the vertex and UV
      of corner `c` of the face as loaded (`f`). */
  predicate CornerWritten(lines: seq<ObjLine>, h: int, nv: int, nt: int, vs: seq<Vertex>, uvs: seq<Uv>, f: FaceRec, g: FaceRec, c: int)
    requires 0 <= c < |f.v| && 0 <= c < |f.vt| && 0 <= c < |g.v| && 0 <= c < |g.vt| && 0 <= h
    requires 1 <= f.v[c] <= |vs| && 1 <= f.vt[c] <= |uvs| && 0 <= nv && 0 <= nt && h + nv + nt <= |lines|
  {
    1 <= g.v[c] <= nv && lines[h + g.v[c] - 1] == VertexLine(vs[f.v[c] - 1])
    && 1 <= g.vt[c] <= nt && lines[h + nv + g.vt[c] - 1] == UvLine(uvs[f.vt[c] - 1])
  }

  /** `RenumberDense` and `RenumberKeeps` together, for one channel. */
  lemma {:induction false} ChannelPass(faces: seq<FaceRec>, chunk: seq<nat>, ch: Channel, keys: seq<int>, required: seq<int>, k: nat, c: nat)
    requires AllWellFormed(faces) && IndexedKeys(keys) && NoDup(required)
    requires forall x :: x in required ==> 1 <= x <= |keys|
    requires k < |faces| && k in chunk && FirstLoaded(faces[k], ch, c)
    requires Cur(faces[k], ch)[c] == Orig(faces[k], ch)[c] && Orig(faces[k], ch)[c] in required
    ensures Renumber(faces, chunk, ch, keys, required, 0).Success?
    ensures var r := Renumber(faces, chunk, ch, keys, required, 0).value;
      KeepsBut(faces, r, chunk, ch)
      && c < |Cur(r[k], ch)| && 1 <= Cur(r[k], ch)[c] <= |required| && required[Cur(r[k], ch)[c] - 1] == Orig(faces[k], ch)[c]
  {
    RenumberDense(faces, chunk, ch, keys, required, k, c);
    RenumberKeeps(faces, chunk, ch, keys, required, 0);
  }

  /** What the renumbering needs of the required indices of a channel. */
  lemma {:induction false} RequiredFacts(faces: seq<FaceRec>, chunk: seq<nat>, ch: Channel, n: int, j: nat)
    requires ChunkIn(chunk, |faces|) && ChunkRefsIn(faces, chunk, ch, n) && j < |chunk|
    ensures var r := Required(faces, chunk, ch);
      NoDup(r) && (forall x :: x in r ==> 1 <= x <= n)
      && (forall x :: x in Cur(faces[chunk[j]], ch) ==> x in r)
      && chunk[j] in chunk
  {
    RequiredIn(faces, chunk, ch, n);
  }

  /** Corner `c` of `f` holds the vertex and the UV it was loaded with, and
      is the first corner loaded with each: the corners the writer's
      updates, keyed on loaded indices, renumber. Every corner of a face
      unchanged since loading that names no vertex and no UV twice is one. */
  predicate AsLoaded(f: FaceRec, c: int)
  {
    WellFormed(f) && FirstLoaded(f, Positions, c) && FirstLoaded(f, TexCoords, c)
    && f.v[c] == f.origV[c] && f.vt[c] == f.origVt[c]
  }

  /** Corner `c` of the renumbered face `g` is numbered, in each channel, by
      the position among the required indices `rv` or `rt` of the index
      corner `c` of the loaded face `f` holds. */
  predicate DenseAt(f: FaceRec, g: FaceRec, rv: seq<int>, rt: seq<int>, c: int)
  {
    |g.v| == |f.v| && |g.vt| == |f.v| && |f.vt| == |f.v| && 0 <= c < |f.v|
    && 1 <= g.v[c] <= |rv| && rv[g.v[c] - 1] == f.v[c]
    && 1 <= g.vt[c] <= |rt| && rt[g.vt[c] - 1] == f.vt[c]
  }

  /** Both passes over given lists of required indices, for one corner. */
  lemma {:induction false} BothPasses(vs: seq<Vertex>, uvs: seq<Uv>, faces: seq<FaceRec>, chunk: seq<nat>, rv: seq<int>, rt: seq<int>, k: nat, c: nat)
    requires AllWellFormed(faces) && IndexedKeys(VertexKeys(vs)) && IndexedKeys(UvKeys(uvs)) && NoDup(rv) && NoDup(rt)
    requires (forall x :: x in rv ==> 1 <= x <= |vs|) && (forall x :: x in rt ==> 1 <= x <= |uvs|)
    requires k < |faces| && k in chunk && AsLoaded(faces[k], c)
    requires faces[k].v[c] in rv && faces[k].vt[c] in rt
    ensures Renumber(faces, chunk, Positions, VertexKeys(vs), rv, 0).Success?
    ensures var f1 := Renumber(faces, chunk, Positions, VertexKeys(vs), rv, 0).value;
      Renumber(f1, chunk, TexCoords, UvKeys(uvs), rt, 0).Success?
      && DenseAt(faces[k], Renumber(f1, chunk, TexCoords, UvKeys(uvs), rt, 0).value[k], rv, rt, c)
  {
    var f := faces[k];
    ChannelPass(faces, chunk, Positions, VertexKeys(vs), rv, k, c);
    var f1 := Renumber(faces, chunk, Positions, VertexKeys(vs), rv, 0).value;
    assert f1[k].origV == f.origV && f1[k].origVt == f.origVt && f1[k].vt == f.vt;
    ChannelPass(f1, chunk, TexCoords, UvKeys(uvs), rt, k, c);
    var g := Renumber(f1, chunk, TexCoords, UvKeys(uvs), rt, 0).value[k];
    assert g.v == f1[k].v && g.origVt == f.origVt;
  }

  /** The renumbering half of `WriteObjFaithful`: such a corner ends
      numbered by the position, among the required indices, of the index it
      was loaded with. */
  lemma {:induction false} RenumberAllDense(vs: seq<Vertex>, uvs: seq<Uv>, faces: seq<FaceRec>, chunk: seq<nat>, j: nat, c: nat)
    requires ChunkIn(chunk, |faces|) && AllWellFormed(faces)
    requires IndexedKeys(VertexKeys(vs)) && IndexedKeys(UvKeys(uvs))
    requires ChunkRefsIn(faces, chunk, Positions, |vs|) && ChunkRefsIn(faces, chunk, TexCoords, |uvs|)
    requires j < |chunk| && AsLoaded(faces[chunk[j]], c)
    ensures RenumberAll(vs, uvs, faces, chunk).Success?
    ensures DenseAt(faces[chunk[j]], RenumberAll(vs, uvs, faces, chunk).value[chunk[j]],
                    Required(faces, chunk, Positions), Required(faces, chunk, TexCoords), c)
  {
    var k := chunk[j];
    var rv, rt := Required(faces, chunk, Positions), Required(faces, chunk, TexCoords);
    RequiredFacts(faces, chunk, Positions, |vs|, j);
    RequiredFacts(faces, chunk, TexCoords, |uvs|, j);
    assert faces[k].v[c] in faces[k].v && faces[k].vt[c] in faces[k].vt;
    BothPasses(vs, uvs, faces, chunk, rv, rt, k, c);
    var f1 := Renumber(faces, chunk, Positions, VertexKeys(vs), rv, 0).value;
    var g2 := Renumber(f1, chunk, TexCoords, UvKeys(uvs), rt, 0).value[k];
    assert RenumberAll(vs, uvs, faces, chunk) == Renumber(f1, chunk, TexCoords, UvKeys(uvs), rt, 0);
    assert RenumberAll(vs, uvs, faces, chunk).value[k] == g2;
  }

  /** The file `lines`, with a header of `h` lines, `nv` vertex lines,
      `nt` UV lines and `n` face lines, has as its `j`-th face line the face
      `g`, written from the loaded face `f`, and corner `c` of `g` picks out
      the vertex and the UV of corner `c` of `f`. */
  predicate FaithfulAt(lines: seq<ObjLine>, h: int, nv: int, nt: int, n: int, vs: seq<Vertex>, uvs: seq<Uv>,
                       f: FaceRec, g: FaceRec, j: int, c: int)
  {
    0 <= h && 0 <= nv && 0 <= nt && 0 <= j < n && |lines| == h + nv + nt + n
    && lines[h + nv + nt + j] == FaceLine(g)
    && |g.v| == |f.v| && |g.vt| == |f.v| && |f.vt| == |f.v| && 0 <= c < |f.v|
    && 1 <= f.v[c] <= |vs| && 1 <= f.vt[c] <= |uvs| && CornerWritten(lines, h, nv, nt, vs, uvs, f, g, c)
  }

  /** The lines half of `WriteObjFaithful`, for any lists of required
      indices and any renumbered faces. */
  lemma {:induction false} LinesPickOut(vs: seq<Vertex>, uvs: seq<Uv>, hdr: seq<ObjLine>, rv: seq<int>, rt: seq<int>,
                     f2: seq<FaceRec>, chunk: seq<nat>, j: nat, f: FaceRec, c: nat)
    requires ChunkIn(chunk, |f2|) && AllWellFormed(f2) && j < |chunk|
    requires forall i :: 0 <= i < |rv| ==> 1 <= rv[i] <= |vs|
    requires forall i :: 0 <= i < |rt| ==> 1 <= rt[i] <= |uvs|
    requires DenseAt(f, f2[chunk[j]], rv, rt, c)
    ensures FaithfulAt(hdr + VertexLines(vs, rv) + UvLines(uvs, rt) + FaceLines(f2, chunk), |hdr|, |rv|, |rt|, |chunk|,
                       vs, uvs, f, f2[chunk[j]], j, c)
  {
    var lines := hdr + VertexLines(vs, rv) + UvLines(uvs, rt) + FaceLines(f2, chunk);
    var h := |hdr|;
    var g := f2[chunk[j]];
    var vl, ul := VertexLines(vs, rv), UvLines(uvs, rt);
    var n, m := g.v[c], g.vt[c];
    assert 1 <= f.v[c] <= |vs| && 1 <= f.vt[c] <= |uvs|;
    assert vl[n - 1] == VertexLine(vs[f.v[c] - 1]);
    assert ul[m - 1] == UvLine(uvs[f.vt[c] - 1]);
    assert lines[h + n - 1] == vl[n - 1];
    assert lines[h + |rv| + m - 1] == ul[m - 1];
    assert lines[h + |rv| + |rt| + j] == FaceLines(f2, chunk)[j];
  }

  /** A corner of a chunk face that holds the vertex and UV it was loaded
      with, and is the first corner loaded with each, is written so that
      its numbers pick out, among the vertex and UV lines written, the very
      vertex and UV the face was loaded with; the face is the chunk's `j`-th
      face line. */
  lemma {:induction false} WriteObjFaithful(vs: seq<Vertex>, uvs: seq<Uv>, faces: seq<FaceRec>, chunk: seq<nat>, mtlOverride: string, mtl: string, j: nat, c: nat)
    requires ChunkIn(chunk, |faces|) && AllWellFormed(faces)
    requires IndexedKeys(VertexKeys(vs)) && IndexedKeys(UvKeys(uvs))
    requires ChunkRefsIn(faces, chunk, Positions, |vs|) && ChunkRefsIn(faces, chunk, TexCoords, |uvs|)
    requires j < |chunk| && AsLoaded(faces[chunk[j]], c)
    ensures WriteObj(vs, uvs, faces, chunk, mtlOverride, mtl).Success?
    ensures var w := WriteObj(vs, uvs, faces, chunk, mtlOverride, mtl).value;
      FaithfulAt(w.0, |Header(mtlOverride, mtl)|, |Required(faces, chunk, Positions)|, |Required(faces, chunk, TexCoords)|,
                 |chunk|, vs, uvs, faces[chunk[j]], w.1[chunk[j]], j, c)
  {
    RenumberAllDense(vs, uvs, faces, chunk, j, c);
    RequiredIn(faces, chunk, Positions, |vs|);
    RequiredIn(faces, chunk, TexCoords, |uvs|);
    var rv := Required(faces, chunk, Positions);
    var rt := Required(faces, chunk, TexCoords);
    var f2 := RenumberAll(vs, uvs, faces, chunk).value;
    var lines := Header(mtlOverride, mtl) + VertexLines(vs, rv) + UvLines(uvs, rt) + FaceLines(f2, chunk);
    assert WriteObj(vs, uvs, faces, chunk, mtlOverride, mtl) == Success((lines, f2));
    LinesPickOut(vs, uvs, Header(mtlOverride, mtl), rv, rt, f2, chunk, j, faces[chunk[j]], c);
  }

  /* ---------- faces the renumbering misses ---------- */

  /** Corner `c` of the renumbered face `g` keeps, in each channel, the
      index corner `c` of the loaded face `f` holds wherever the updates,
      keyed on loaded indices, miss it: it is not the first corner loaded
      with its index, or its loaded index is not among the required ones. */
  predicate KeptAt(f: FaceRec, g: FaceRec, rv: seq<int>, rt: seq<int>, c: int)
    requires WellFormed(f) && 0 <= c < |f.v|
  {
    |g.v| == |f.v| && |g.vt| == |f.v|
    && (!FirstLoaded(f, Positions, c) || f.origV[c] !in rv ==> g.v[c] == f.v[c])
    && (!FirstLoaded(f, TexCoords, c) || f.origVt[c] !in rt ==> g.vt[c] == f.vt[c])
  }

  /** Both passes over given lists of required indices miss such a corner. */
  lemma {:induction false} BothPassesMiss(vs: seq<Vertex>, uvs: seq<Uv>, faces: seq<FaceRec>, chunk: seq<nat>, rv: seq<int>, rt: seq<int>, k: nat, c: nat)
    requires AllWellFormed(faces) && IndexedKeys(VertexKeys(vs)) && IndexedKeys(UvKeys(uvs)) && NoDup(rv) && NoDup(rt)
    requires (forall x :: x in rv ==> 1 <= x <= |vs|) && (forall x :: x in rt ==> 1 <= x <= |uvs|)
    requires k < |faces| && c < |faces[k].v|
    ensures Renumber(faces, chunk, Positions, VertexKeys(vs), rv, 0).Success?
    ensures var f1 := Renumber(faces, chunk, Positions, VertexKeys(vs), rv, 0).value;
      Renumber(f1, chunk, TexCoords, UvKeys(uvs), rt, 0).Success?
      && KeptAt(faces[k], Renumber(f1, chunk, TexCoords, UvKeys(uvs), rt, 0).value[k], rv, rt, c)
  {
    var f := faces[k];
    assert rv[0..] == rv && rt[0..] == rt;
    RenumberKeeps(faces, chunk, Positions, VertexKeys(vs), rv, 0);
    if !FirstLoaded(f, Positions, c) || f.origV[c] !in rv {
      CornerKept(faces, chunk, Positions, VertexKeys(vs), rv, 0, k, c);
    }
    var f1 := Renumber(faces, chunk, Positions, VertexKeys(vs), rv, 0).value;
    assert f1[k].origVt == f.origVt && f1[k].vt == f.vt;
    RenumberKeeps(f1, chunk, TexCoords, UvKeys(uvs), rt, 0);
    if !FirstLoaded(f, TexCoords, c) || f.origVt[c] !in rt {
      assert FirstLoaded(f1[k], TexCoords, c) == FirstLoaded(f, TexCoords, c);
      CornerKept(f1, chunk, TexCoords, UvKeys(uvs), rt, 0, k, c);
    }
  }

  /** The renumbering half of `WriteObjMisses`. */
  lemma {:induction false} RenumberAllMisses(vs: seq<Vertex>, uvs: seq<Uv>, faces: seq<FaceRec>, chunk: seq<nat>, j: nat, c: nat)
    requires ChunkIn(chunk, |faces|) && AllWellFormed(faces)
    requires IndexedKeys(VertexKeys(vs)) && IndexedKeys(UvKeys(uvs))
    requires ChunkRefsIn(faces, chunk, Positions, |vs|) && ChunkRefsIn(faces, chunk, TexCoords, |uvs|)
    requires j < |chunk| && c < |faces[chunk[j]].v|
    ensures RenumberAll(vs, uvs, faces, chunk).Success?
    ensures KeptAt(faces[chunk[j]], RenumberAll(vs, uvs, faces, chunk).value[chunk[j]],
                   Required(faces, chunk, Positions), Required(faces, chunk, TexCoords), c)
  {
    var k := chunk[j];
    var rv, rt := Required(faces, chunk, Positions), Required(faces, chunk, TexCoords);
    RequiredFacts(faces, chunk, Positions, |vs|, j);
    RequiredFacts(faces, chunk, TexCoords, |uvs|, j);
    BothPassesMiss(vs, uvs, faces, chunk, rv, rt, k, c);
    var f1 := Renumber(faces, chunk, Positions, VertexKeys(vs), rv, 0).value;
    assert RenumberAll(vs, uvs, faces, chunk) == Renumber(f1, chunk, TexCoords, UvKeys(uvs), rt, 0);
  }

  /** What the writer does to a corner its updates miss: a corner of a
      chunk face that is not the first loaded with its index, or whose
      loaded index the chunk no longer uses, is written with the index it
      holds, whatever line that number names in the file. */
  lemma {:induction false} WriteObjMisses(vs: seq<Vertex>, uvs: seq<Uv>, faces: seq<FaceRec>, chunk: seq<nat>, mtlOverride: string, mtl: string, j: nat, c: nat)
    requires ChunkIn(chunk, |faces|) && AllWellFormed(faces)
    requires IndexedKeys(VertexKeys(vs)) && IndexedKeys(UvKeys(uvs))
    requires ChunkRefsIn(faces, chunk, Positions, |vs|) && ChunkRefsIn(faces, chunk, TexCoords, |uvs|)
    requires j < |chunk| && c < |faces[chunk[j]].v|
    ensures WriteObj(vs, uvs, faces, chunk, mtlOverride, mtl).Success?
    ensures KeptAt(faces[chunk[j]], WriteObj(vs, uvs, faces, chunk, mtlOverride, mtl).value.1[chunk[j]],
                   Required(faces, chunk, Positions), Required(faces, chunk, TexCoords), c)
  {
    RenumberAllMisses(vs, uvs, faces, chunk, j, c);
    RequiredIn(faces, chunk, Positions, |vs|);
    RequiredIn(faces, chunk, TexCoords, |uvs|);
    var rv := Required(faces, chunk, Positions);
    var rt := Required(faces, chunk, TexCoords);
    var f2 := RenumberAll(vs, uvs, faces, chunk).value;
    var lines := Header(mtlOverride, mtl) + VertexLines(vs, rv) + UvLines(uvs, rt) + FaceLines(f2, chunk);
    assert WriteObj(vs, uvs, faces, chunk, mtlOverride, mtl) == Success((lines, f2));
  }

  /** A face loaded with vertices 1, 2, 3 whose last two corners now name
      vertices 4 and 5, as after cropping, is written, as the only face of
      its chunk, with three vertex lines, yet keeps the numbers 4 and 5,
      which name no vertex written. */
  lemma {:induction false} CroppedFaceDangles(vs: seq<Vertex>, uvs: seq<Uv>, faces: seq<FaceRec>, chunk: seq<nat>)
    requires |vs| == 5 && |uvs| == 3 && IndexedKeys(VertexKeys(vs)) && IndexedKeys(UvKeys(uvs))
    requires faces == [FaceRec([1, 4, 5], [1, 2, 3], [1, 2, 3], [1, 2, 3])] && chunk == [0]
    ensures WriteObj(vs, uvs, faces, chunk, "", "").Success?
    ensures |Required(faces, chunk, Positions)| == 3
    ensures var g := WriteObj(vs, uvs, faces, chunk, "", "").value.1[0];
      |g.v| == 3 && g.v[1] == 4 && g.v[2] == 5
  {
    var f := faces[0];
    assert NoDup(f.v);
    RequiredSingle(faces, chunk, Positions, |vs|);
    RequiredSingle(faces, chunk, TexCoords, |uvs|);
    assert f.origV[1] !in f.v && f.origV[2] !in f.v;
    WriteObjMisses(vs, uvs, faces, chunk, "", "", 0, 1);
    WriteObjMisses(vs, uvs, faces, chunk, "", "", 0, 2);
  }

  /** A face that uses UV 2 at two corners is written, as the only face of
      its chunk, with the UVs [2, 3]; its last corner, not the first loaded
      with UV 2, keeps the number 2, which now names the line of UV 3. */
  lemma {:induction false} RepeatedUvMisnumbered(vs: seq<Vertex>, uvs: seq<Uv>, faces: seq<FaceRec>, chunk: seq<nat>)
    requires |vs| == 3 && |uvs| == 3 && IndexedKeys(VertexKeys(vs)) && IndexedKeys(UvKeys(uvs))
    requires faces == [FaceRec([1, 2, 3], [2, 3, 2], [1, 2, 3], [2, 3, 2])] && chunk == [0]
    ensures WriteObj(vs, uvs, faces, chunk, "", "").Success?
    ensures Required(faces, chunk, TexCoords) == [2, 3]
    ensures var g := WriteObj(vs, uvs, faces, chunk, "", "").value.1[0];
      |g.vt| == 3 && g.vt[2] == 2 && Required(faces, chunk, TexCoords)[g.vt[2] - 1] != faces[0].vt[2]
  {
    var f := faces[0];
    RepeatedUvRequired(faces, chunk);
    assert f.origVt[0] == f.origVt[2];
    WriteObjMisses(vs, uvs, faces, chunk, "", "", 0, 2);
  }

  /** A chunk of one face with indices in `1..n` and no repeats needs
      exactly that face's indices, in its order. */
  lemma {:induction false} RequiredSingle(faces: seq<FaceRec>, chunk: seq<nat>, ch: Channel, n: int)
    requires |faces| == 1 && chunk == [0]
    requires forall c :: 0 <= c < |Cur(faces[0], ch)| ==> 1 <= Cur(faces[0], ch)[c] <= n
    ensures ChunkRefsIn(faces, chunk, ch, n)
    ensures NoDup(Cur(faces[0], ch)) ==> Required(faces, chunk, ch) == Cur(faces[0], ch)
  {
    assert chunk[..0] == [];
    assert Gather(faces, chunk, ch) == Cur(faces[0], ch);
    if NoDup(Cur(faces[0], ch)) {
      DedupDistinct(Cur(faces[0], ch));
    }
  }

  lemma {:induction false} RepeatedUvRequired(faces: seq<FaceRec>, chunk: seq<nat>)
    requires faces == [FaceRec([1, 2, 3], [2, 3, 2], [1, 2, 3], [2, 3, 2])] && chunk == [0]
    ensures ChunkRefsIn(faces, chunk, Positions, 3) && ChunkRefsIn(faces, chunk, TexCoords, 3)
    ensures Required(faces, chunk, TexCoords) == [2, 3]
  {
    RequiredSingle(faces, chunk, Positions, 3);
    RequiredSingle(faces, chunk, TexCoords, 3);
    assert chunk[..0] == [] && chunk[0] == 0;
    assert Gather(faces, chunk, TexCoords) == faces[0].vt;
    DedupSample(faces[0].vt);
  }

  lemma {:induction false} DedupSample(s: seq<int>)
    requires s == [2, 3, 2]
    ensures Dedup(s) == [2, 3]
  {
    var a := s[..2];
    assert a[..1] == [2] && [2][..0] == [];
    assert Dedup(a) == [2, 3];
    assert s[..|s| - 1] == a;
  }

  /** A list without repeats is its own `Distinct`. */
  lemma {:induction false} DedupDistinct(s: seq<int>)
    requires NoDup(s)
    ensures Dedup(s) == s
  {
    if s != [] {
      var init := s[..|s| - 1];
      assert NoDup(init);
      DedupDistinct(init);
      assert s[|s| - 1] !in init;
      assert init + [s[|s| - 1]] == s;
    }
  }
}
