/** `Face`: an `f` record. A face keeps, beside its current vertex and UV
    index lists, the lists it was loaded with; index updates are keyed on the
    loaded (original) lists, and `RevertVertices` restores them.

    `FaceRec` is the face as a value, as the mesh holds it; `Face` is the
    class with its four arrays, proved against the functions on `FaceRec`. */
module Faces {
  import opened Wrappers
  import opened Extents
  import opened Vertices
  import Text

  const MinimumDataLength := 4

  datatype FaceRec = FaceRec(v: seq<int>, vt: seq<int>, origV: seq<int>, origVt: seq<int>)

  /** The four lists describe the same corners. */
  predicate WellFormed(f: FaceRec)
  {
    |f.vt| == |f.v| && |f.origV| == |f.v| && |f.origVt| == |f.v|
  }

  predicate AllWellFormed(faces: seq<FaceRec>)
  {
    forall k :: 0 <= k < |faces| ==> WellFormed(faces[k])
  }

  /** A chunk: positions in a face list of `faceCount` faces. */
  predicate ChunkIn(chunk: seq<nat>, faceCount: int)
  {
    forall j :: 0 <= j < |chunk| ==> chunk[j] < faceCount
  }

  /** Strictly increasing: a list of face positions in mesh order, each once. */
  predicate Increasing(s: seq<nat>)
  {
    forall i, j :: 0 <= i < j < |s| ==> s[i] < s[j]
  }

  lemma {:induction false} IncreasingSnoc(s: seq<nat>, x: nat)
    requires Increasing(s) && forall k :: k in s ==> k < x
    ensures Increasing(s + [x])
  {
    var t := s + [x];
    forall i, j | 0 <= i < j < |t| ensures t[i] < t[j] {
      assert t[i] == s[i];
      if j == |s| {
        assert s[i] in s;
      }
    }
  }

  /** A face as `LoadFromStringArray` leaves it: originals equal to the current lists. */
  function Loaded(v: seq<int>, vt: seq<int>): FaceRec
  {
    FaceRec(v, vt, v, vt)
  }

  /* ---------- parsing ---------- */

  /** One `v` or `v/vt` token (further `/` parts are ignored); a missing UV
      index stays 0. */
  function ParseCorner(token: string): (r: Result<(int, int)>)
    ensures r.Success? ==> Text.ParseInt(Text.Split(token, '/')[0]) == Some(r.value.0)
    ensures r.Success? && |Text.Split(token, '/')| == 1 ==> r.value.1 == 0
  {
    var parts := Text.Split(token, '/');
    match Text.ParseInt(parts[0])
    case None => Failure("ArgumentException: Could not parse parameter as int")
    case Some(vi) =>
      if |parts| > 1 then
        match Text.ParseInt(parts[1])
        case None => Failure("ArgumentException: Could not parse parameter as int")
        case Some(ti) => Success((vi, ti))
      else Success((vi, 0))
  }

  /** The corners of a face, in order; the first token that fails fails all. */
  function ParseCorners(tokens: seq<string>): (r: Result<(seq<int>, seq<int>)>)
    ensures r.Success? ==> |r.value.0| == |tokens| && |r.value.1| == |tokens|
    decreases |tokens|
  {
    if tokens == [] then Success(([], []))
    else
      var init := tokens[..|tokens| - 1];
      match ParseCorners(init)
      case Failure(e) => Failure(e)
      case Success(lists) =>
        match ParseCorner(tokens[|tokens| - 1])
        case Failure(e) => Failure(e)
        case Success(c) => Success((lists.0 + [c.0], lists.1 + [c.1]))
  }

  /** The corners parse exactly when every token does. */
  lemma {:induction false} ParseCornersSpec(tokens: seq<string>)
    ensures ParseCorners(tokens).Success? <==> forall i :: 0 <= i < |tokens| ==> ParseCorner(tokens[i]).Success?
  {
    if ParseCorners(tokens).Success? {
      ParseCornersValues(tokens);
    } else {
      ParseCornersFailure(tokens);
    }
  }

  /** A failed parse has a token that fails on its own. */
  lemma {:induction false} ParseCornersFailure(tokens: seq<string>)
    requires ParseCorners(tokens).Failure?
    ensures exists k :: 0 <= k < |tokens| && ParseCorner(tokens[k]).Failure?
    decreases |tokens|
  {
    var init := tokens[..|tokens| - 1];
    if ParseCorners(init).Success? {
      assert ParseCorner(tokens[|tokens| - 1]).Failure?;
    } else {
      ParseCornersFailure(init);
      var k :| 0 <= k < |init| && ParseCorner(init[k]).Failure?;
      assert tokens[k] == init[k];
    }
  }

  /** A successful parse holds each token's corner at that token's position. */
  lemma {:induction false} ParseCornersValues(tokens: seq<string>)
    ensures ParseCorners(tokens).Success? ==> forall i :: 0 <= i < |tokens| ==>
      ParseCorner(tokens[i]) == Success((ParseCorners(tokens).value.0[i], ParseCorners(tokens).value.1[i]))
    decreases |tokens|
  {
    if tokens != [] && ParseCorners(tokens).Success? {
      var init := tokens[..|tokens| - 1];
      ParseCornersValues(init);
      var r, lists, c := ParseCorners(tokens).value, ParseCorners(init).value, ParseCorner(tokens[|tokens| - 1]).value;
      assert r == (lists.0 + [c.0], lists.1 + [c.1]);
      forall i | 0 <= i < |tokens| ensures ParseCorner(tokens[i]) == Success((r.0[i], r.1[i])) {
        if i < |init| {
          assert tokens[i] == init[i];
        }
      }
    }
  }

  /** Parsing one more corner extends the parsed lists, or fails with it. */
  lemma {:induction false} ParseCornersExtend(tokens: seq<string>, i: nat)
    requires i < |tokens|
    ensures ParseCorners(tokens[..i + 1]) ==
      match ParseCorners(tokens[..i])
      case Failure(e) => Failure(e)
      case Success(lists) =>
        match ParseCorner(tokens[i])
        case Failure(e) => Failure(e)
        case Success(c) => Success((lists.0 + [c.0], lists.1 + [c.1]))
  {
    assert tokens[..i + 1][..i] == tokens[..i];
  }

  /** `LoadFromStringArray`: at least four tokens, the prefix `f` in any case,
      and every further token a corner. */
  function ParseFace(data: seq<string>): (r: Result<FaceRec>)
    ensures r.Success? ==> (WellFormed(r.value) && |r.value.v| == |data| - 1
      && r.value.origV == r.value.v && r.value.origVt == r.value.vt)
  {
    if |data| < MinimumDataLength then Failure("ArgumentException: Input array must be of minimum length 4")
    else if Text.Lower(data[0]) != "f" then Failure("ArgumentException: Data prefix must be 'f'")
    else
      match ParseCorners(data[1..])
      case Failure(e) => Failure(e)
      case Success(lists) => Success(Loaded(lists.0, lists.1))
  }

  /** A face record is accepted exactly when it has at least four tokens,
      the prefix `f` in any case, and every further token is a corner. */
  lemma {:induction false} ParseFaceAccepts(data: seq<string>)
    ensures ParseFace(data).Success? <==> (|data| >= MinimumDataLength && Text.Lower(data[0]) == "f"
      && forall i :: 1 <= i < |data| ==> ParseCorner(data[i]).Success?)
  {
    if |data| >= MinimumDataLength {
      ParseCornersSpec(data[1..]);
      assert forall i :: 1 <= i < |data| ==> data[1..][i - 1] == data[i];
    }
  }

  /* ---------- index updates and revert ---------- */

  /** The first position holding `x`. */
  function FirstIndex(s: seq<int>, x: int): (r: Option<nat>)
    ensures r.Some? ==> r.value < |s| && s[r.value] == x && forall j :: 0 <= j < r.value ==> s[j] != x
    ensures r.None? ==> x !in s
    decreases |s|
  {
    if s == [] then None
    else if s[0] == x then Some(0)
    else
      match FirstIndex(s[1..], x)
      case None => None
      case Some(k) => Some(k + 1)
  }

  /** Rewrites the current index at the first position whose ORIGINAL index
      is `oldIndex`; every other position keeps its current index. */
  function UpdateFirst(cur: seq<int>, orig: seq<int>, oldIndex: int, newIndex: int): (r: seq<int>)
    requires |cur| == |orig|
    ensures |r| == |cur|
    ensures forall i :: 0 <= i < |r| ==>
      r[i] == (if orig[i] == oldIndex && (forall j :: 0 <= j < i ==> orig[j] != oldIndex) then newIndex else cur[i])
    ensures oldIndex !in orig ==> r == cur
  {
    match FirstIndex(orig, oldIndex)
    case None => cur
    case Some(k) => cur[k := newIndex]
  }

  /** `UpdateVertexIndex` on a face value. */
  function UpdateVertex(f: FaceRec, oldIndex: int, newIndex: int): FaceRec
    requires WellFormed(f)
  {
    f.(v := UpdateFirst(f.v, f.origV, oldIndex, newIndex))
  }

  /** `UpdateTextureVertexIndex` on a face value. */
  function UpdateTexture(f: FaceRec, oldIndex: int, newIndex: int): FaceRec
    requires WellFormed(f)
  {
    f.(vt := UpdateFirst(f.vt, f.origVt, oldIndex, newIndex))
  }

  /** `RevertVertices` on a face value. */
  function Reverted(f: FaceRec): FaceRec
  {
    f.(v := f.origV, vt := f.origVt)
  }

  /** Because updates match on the original indices, a second update of the
      same original index overwrites the first instead of hitting a later
      corner. */
  lemma {:induction false} UpdateVertexOverwrites(f: FaceRec, oldIndex: int, n1: int, n2: int)
    requires WellFormed(f)
    ensures WellFormed(UpdateVertex(f, oldIndex, n1))
    ensures UpdateVertex(UpdateVertex(f, oldIndex, n1), oldIndex, n2) == UpdateVertex(f, oldIndex, n2)
  {
    var g := UpdateVertex(f, oldIndex, n1);
    var a := UpdateVertex(g, oldIndex, n2).v;
    var b := UpdateVertex(f, oldIndex, n2).v;
    assert |a| == |b|;
    forall i | 0 <= i < |a| ensures a[i] == b[i] {
    }
  }

  datatype IndexUpdate = VertexUpdate(oldV: int, newV: int) | TextureUpdate(oldT: int, newT: int)

  function ApplyUpdates(f: FaceRec, ops: seq<IndexUpdate>): (r: FaceRec)
    requires WellFormed(f)
    ensures WellFormed(r)
    decreases |ops|
  {
    if ops == [] then f
    else
      var g := match ops[0]
        case VertexUpdate(o, n) => UpdateVertex(f, o, n)
        case TextureUpdate(o, n) => UpdateTexture(f, o, n);
      ApplyUpdates(g, ops[1..])
  }

  /** Any run of index updates is undone exactly by `RevertVertices`: the
      originals are never touched. */
  lemma {:induction false} RevertUndoesUpdates(f: FaceRec, ops: seq<IndexUpdate>)
    requires WellFormed(f)
    ensures Reverted(ApplyUpdates(f, ops)) == Reverted(f)
    decreases |ops|
  {
    if ops != [] {
      var g := match ops[0]
        case VertexUpdate(o, n) => UpdateVertex(f, o, n)
        case TextureUpdate(o, n) => UpdateTexture(f, o, n);
      RevertUndoesUpdates(g, ops[1..]);
    }
  }

  /** Reverting a loaded face restores the lists it was loaded with, and
      reverting twice is reverting once. */
  lemma {:induction false} RevertRestoresLoaded(data: seq<string>, ops: seq<IndexUpdate>)
    requires ParseFace(data).Success?
    ensures var f := ParseFace(data).value;
      Reverted(ApplyUpdates(f, ops)) == f && Reverted(Reverted(ApplyUpdates(f, ops))) == f
  {
    RevertUndoesUpdates(ParseFace(data).value, ops);
  }

  /* ---------- extent test and text form ---------- */

  /** The face's vertex indices are 1-based positions in the vertex list. */
  predicate IndicesIn(f: FaceRec, vertexCount: int)
  {
    forall i :: 0 <= i < |f.v| ==> 1 <= f.v[i] <= vertexCount
  }

  /** The corners before `n` all name vertices, none of them in the extent. */
  predicate MissesBefore(idx: seq<int>, vertices: seq<Vertex>, e: Extent, n: int)
    requires n <= |idx|
  {
    forall p :: 0 <= p < n ==> 1 <= idx[p] <= |vertices| && !InExtent(vertices[idx[p] - 1], e)
  }

  /** Corner `i` is the first whose vertex is in the extent, and every
      corner before it names a vertex. */
  predicate HitAt(idx: seq<int>, vertices: seq<Vertex>, e: Extent, i: int)
    requires 0 <= i < |idx|
  {
    1 <= idx[i] <= |vertices| && InExtent(vertices[idx[i] - 1], e) && MissesBefore(idx, vertices, e, i)
  }

  /** Corner `i` names no vertex, and every corner before it names a vertex
      outside the extent. */
  predicate BadAt(idx: seq<int>, vertices: seq<Vertex>, e: Extent, i: int)
    requires 0 <= i < |idx|
  {
    !(1 <= idx[i] <= |vertices|) && MissesBefore(idx, vertices, e, i)
  }

  /** `InExtent`: scans the corners in order and answers true on the first
      vertex in the extent, without reading later corners; reading an index
      that names no vertex before that fails (the list indexer's
      `ArgumentOutOfRangeException`). */
  function AnyInExtent(idx: seq<int>, vertices: seq<Vertex>, e: Extent): (r: Result<bool>)
    ensures r == Success(true) <==> exists i :: 0 <= i < |idx| && HitAt(idx, vertices, e, i)
    ensures r == Success(false) <==> MissesBefore(idx, vertices, e, |idx|)
    ensures r.Failure? <==> exists i :: 0 <= i < |idx| && BadAt(idx, vertices, e, i)
    decreases |idx|
  {
    if idx == [] then Success(false)
    else if !(1 <= idx[0] <= |vertices|) then
      assert BadAt(idx, vertices, e, 0);
      Failure("ArgumentOutOfRangeException: vertex index")
    else if InExtent(vertices[idx[0] - 1], e) then
      assert HitAt(idx, vertices, e, 0);
      Success(true)
    else
      ScanStep(idx, vertices, e);
      AnyInExtent(idx[1..], vertices, e)
  }

  /** Past a first corner that names a vertex outside the extent, the scan
      of the rest sees the same corners one place earlier. */
  lemma {:induction false} ScanStep(idx: seq<int>, vertices: seq<Vertex>, e: Extent)
    requires idx != [] && 1 <= idx[0] <= |vertices| && !InExtent(vertices[idx[0] - 1], e)
    ensures (exists i :: 0 <= i < |idx| && HitAt(idx, vertices, e, i)) <==> (exists i :: 0 <= i < |idx| - 1 && HitAt(idx[1..], vertices, e, i))
    ensures (exists i :: 0 <= i < |idx| && BadAt(idx, vertices, e, i)) <==> (exists i :: 0 <= i < |idx| - 1 && BadAt(idx[1..], vertices, e, i))
    ensures MissesBefore(idx, vertices, e, |idx|) <==> MissesBefore(idx[1..], vertices, e, |idx| - 1)
  {
    ScanShift(idx, vertices, e);
    if exists i :: 0 <= i < |idx| && HitAt(idx, vertices, e, i) {
      var i :| 0 <= i < |idx| && HitAt(idx, vertices, e, i);
      assert i > 0 && idx[1..][i - 1] == idx[i];
      assert HitAt(idx[1..], vertices, e, i - 1);
    }
    if exists i :: 0 <= i < |idx| - 1 && HitAt(idx[1..], vertices, e, i) {
      var i :| 0 <= i < |idx| - 1 && HitAt(idx[1..], vertices, e, i);
      assert idx[1..][i] == idx[i + 1];
      assert HitAt(idx, vertices, e, i + 1);
    }
    if exists i :: 0 <= i < |idx| && BadAt(idx, vertices, e, i) {
      var i :| 0 <= i < |idx| && BadAt(idx, vertices, e, i);
      assert i > 0 && idx[1..][i - 1] == idx[i];
      assert BadAt(idx[1..], vertices, e, i - 1);
    }
    if exists i :: 0 <= i < |idx| - 1 && BadAt(idx[1..], vertices, e, i) {
      var i :| 0 <= i < |idx| - 1 && BadAt(idx[1..], vertices, e, i);
      assert idx[1..][i] == idx[i + 1];
      assert BadAt(idx, vertices, e, i + 1);
    }
  }

  lemma {:induction false} ScanShift(idx: seq<int>, vertices: seq<Vertex>, e: Extent)
    requires idx != [] && 1 <= idx[0] <= |vertices| && !InExtent(vertices[idx[0] - 1], e)
    ensures forall n :: 1 <= n <= |idx| ==> (MissesBefore(idx, vertices, e, n) <==> MissesBefore(idx[1..], vertices, e, n - 1))
  {
    forall n | 1 <= n <= |idx| ensures MissesBefore(idx, vertices, e, n) <==> MissesBefore(idx[1..], vertices, e, n - 1) {
      if MissesBefore(idx[1..], vertices, e, n - 1) {
        forall p | 0 <= p < n ensures 1 <= idx[p] <= |vertices| && !InExtent(vertices[idx[p] - 1], e) {
          if p > 0 { assert idx[p] == idx[1..][p - 1]; }
        }
      }
      if MissesBefore(idx, vertices, e, n) {
        forall p | 0 <= p < n - 1 ensures 1 <= idx[1..][p] <= |vertices| && !InExtent(vertices[idx[1..][p] - 1], e) {
          assert idx[1..][p] == idx[p + 1];
        }
      }
    }
  }

  /** When every index names a vertex the scan cannot fail, and it answers
      true exactly when one of the vertices is in the extent. */
  lemma {:induction false} ScanInRange(idx: seq<int>, vertices: seq<Vertex>, e: Extent)
    requires forall i :: 0 <= i < |idx| ==> 1 <= idx[i] <= |vertices|
    ensures AnyInExtent(idx, vertices, e).Success?
    ensures AnyInExtent(idx, vertices, e).value <==> exists i :: 0 <= i < |idx| && InExtent(vertices[idx[i] - 1], e)
    decreases |idx|
  {
    if idx != [] && !InExtent(vertices[idx[0] - 1], e) {
      ScanInRange(idx[1..], vertices, e);
      if exists i :: 0 <= i < |idx| && InExtent(vertices[idx[i] - 1], e) {
        var i :| 0 <= i < |idx| && InExtent(vertices[idx[i] - 1], e);
        assert idx[1..][i - 1] == idx[i];
      }
    }
  }

  /** A face whose vertex indices all name vertices is in the extent exactly
      when one of its vertices is. */
  function FaceInExtent(f: FaceRec, vertices: seq<Vertex>, e: Extent): (r: bool)
    requires IndicesIn(f, |vertices|)
    ensures r <==> exists i :: 0 <= i < |f.v| && InExtent(vertices[f.v[i] - 1], e)
  {
    ScanInRange(f.v, vertices, e);
    AnyInExtent(f.v, vertices, e) == Success(true)
  }

  function CornerText(v: int, vt: int): string
  {
    Text.IntToString(v) + "/" + Text.IntToString(vt)
  }

  function CornerTexts(v: seq<int>, vt: seq<int>): (r: seq<string>)
    requires |vt| == |v|
    ensures |r| == |v| && forall i :: 0 <= i < |r| ==> r[i] == CornerText(v[i], vt[i])
  {
    seq(|v|, i requires 0 <= i < |v| => CornerText(v[i], vt[i]))
  }

  /** `ToString()`: "f" then " v/vt" per corner, which is the tokens "f",
      "v/vt", ... joined by single spaces. */
  function FaceToString(f: FaceRec): string
    requires |f.vt| == |f.v|
  {
    Text.Join(["f"] + CornerTexts(f.v, f.vt), ' ')
  }

  lemma {:induction false} CornerRoundTrip(v: int, vt: int)
    requires Text.Int32Min <= v <= Text.Int32Max && Text.Int32Min <= vt <= Text.Int32Max
    ensures ParseCorner(CornerText(v, vt)) == Success((v, vt))
    ensures CornerText(v, vt) != [] && ' ' !in CornerText(v, vt)
  {
    var sv, st := Text.IntToString(v), Text.IntToString(vt);
    Text.IntToStringHasNoSpace(v);
    Text.IntToStringHasNoSpace(vt);
    assert Text.Join([sv, st], '/') == CornerText(v, vt);
    Text.JoinSplit([sv, st], '/');
    Text.ParseIntToString(v);
    Text.ParseIntToString(vt);
  }

  predicate Int32Indices(s: seq<int>)
  {
    forall i :: 0 <= i < |s| ==> Text.Int32Min <= s[i] <= Text.Int32Max
  }

  /** Writing a face and reading the line back gives the face as loaded from
      its current lists. */
  lemma {:induction false} FaceToStringRoundTrip(f: FaceRec)
    requires |f.vt| == |f.v| >= 3
    requires Int32Indices(f.v) && Int32Indices(f.vt)
    ensures ParseFace(Text.Tokens(FaceToString(f))) == Success(Loaded(f.v, f.vt))
    ensures Text.Tokens(FaceToString(f)) == ["f"] + CornerTexts(f.v, f.vt)
  {
    var cs := CornerTexts(f.v, f.vt);
    var ts := ["f"] + cs;
    forall i | 0 <= i < |cs| ensures ParseCorner(cs[i]) == Success((f.v[i], f.vt[i])) && cs[i] != [] && ' ' !in cs[i] {
      CornerRoundTrip(f.v[i], f.vt[i]);
    }
    Text.TokensOfJoin(ts);
    assert ts[1..] == cs;
    assert Text.Lower(ts[0]) == "f";
    var r := ParseCorners(cs);
    ParseCornersSpec(cs);
    ParseCornersValues(cs);
    assert r.Success?;
    assert r.value.0 == f.v;
    assert r.value.1 == f.vt;
  }

  /* ---------- the class ---------- */

  class Face {
    var vertexIndexList: array<int>
    var textureVertexIndexList: array<int>
    var originalVertexIndexList: array<int>
    var originalTextureVertexIndexList: array<int>

    /** Four separate arrays of one length. */
    predicate Valid()
      reads this
    {
      textureVertexIndexList.Length == vertexIndexList.Length
      && originalVertexIndexList.Length == vertexIndexList.Length
      && originalTextureVertexIndexList.Length == vertexIndexList.Length
      && vertexIndexList != textureVertexIndexList && vertexIndexList != originalVertexIndexList
      && vertexIndexList != originalTextureVertexIndexList && textureVertexIndexList != originalVertexIndexList
      && textureVertexIndexList != originalTextureVertexIndexList
      && originalVertexIndexList != originalTextureVertexIndexList
    }

    /** The face as a value. */
    function Rec(): FaceRec
      reads this, vertexIndexList, textureVertexIndexList, originalVertexIndexList, originalTextureVertexIndexList
    {
      FaceRec(vertexIndexList[..], textureVertexIndexList[..], originalVertexIndexList[..], originalTextureVertexIndexList[..])
    }

    constructor ()
      ensures Valid() && Rec() == Loaded([], [])
    {
      vertexIndexList := new int[0];
      textureVertexIndexList := new int[0];
      originalVertexIndexList := new int[0];
      originalTextureVertexIndexList := new int[0];
    }

    /** The loop of `LoadFromStringArray`: fills fresh arrays corner by
        corner; a corner given without a UV index leaves that slot at 0. */
    static method ReadCorners(tokens: seq<string>) returns (ok: bool, v: array<int>, vt: array<int>)
      ensures fresh(v) && fresh(vt) && v != vt
      ensures ok <==> ParseCorners(tokens).Success?
      ensures ok ==> ParseCorners(tokens).value == (v[..], vt[..])
    {
      v := new int[|tokens|];
      vt := new int[|tokens|](_ => 0);
      var i := 0;
      while i < |tokens|
        invariant 0 <= i <= |tokens|
        invariant ParseCorners(tokens[..i]) == Success((v[..i], vt[..i]))
        invariant forall j :: i <= j < |tokens| ==> vt[j] == 0
      {
        ParseCornersExtend(tokens, i);
        if ParseCorner(tokens[i]).Failure? {
          ParseCornersSpec(tokens);
          return false, v, vt;
        }
        var c := ParseCorner(tokens[i]).value;
        v[i] := c.0;
        if |Text.Split(tokens[i], '/')| > 1 {
          vt[i] := c.1;
        }
        assert v[..i + 1] == v[..i] + [c.0];
        assert vt[..i + 1] == vt[..i] + [c.1];
        i := i + 1;
      }
      assert tokens[..i] == tokens;
      assert v[..] == v[..i] && vt[..] == vt[..i];
      ok := true;
    }

    /** `CopyTo` into a fresh array of the same length. */
    static method CopyOf(a: array<int>) returns (b: array<int>)
      ensures fresh(b) && b[..] == a[..]
    {
      b := new int[a.Length];
      forall j | 0 <= j < a.Length {
        b[j] := a[j];
      }
    }

    /** `LoadFromStringArray`: checks length and prefix, reads the corners,
        then copies them into the originals. A failure is returned instead of
        thrown; the state after a failure is not specified. */
    method LoadFromStringArray(data: seq<string>) returns (outcome: Outcome)
      modifies this
      ensures outcome.Pass? <==> ParseFace(data).Success?
      ensures outcome.Pass? ==> Valid() && Rec() == ParseFace(data).value
    {
      if |data| < MinimumDataLength {
        return Fail("ArgumentException: Input array must be of minimum length 4");
      }
      if Text.Lower(data[0]) != "f" {
        return Fail("ArgumentException: Data prefix must be 'f'");
      }
      var ok, v, vt := ReadCorners(data[1..]);
      if !ok {
        return Fail("ArgumentException: Could not parse parameter as int");
      }
      ghost var parsed := Loaded(v[..], vt[..]);
      assert ParseFace(data) == Success(parsed);
      var ov := CopyOf(v);
      var ovt := CopyOf(vt);
      vertexIndexList, textureVertexIndexList := v, vt;
      originalVertexIndexList, originalTextureVertexIndexList := ov, ovt;
      assert Rec() == parsed;
      outcome := Pass;
    }

    /** `UpdateVertexIndex`: the first position whose original index is
        `oldIndex` takes `newIndex`; nothing else changes. */
    method UpdateVertexIndex(oldIndex: int, newIndex: int)
      requires Valid()
      modifies vertexIndexList
      ensures Valid() && Rec() == UpdateVertex(old(Rec()), oldIndex, newIndex)
    {
      var index := 0;
      while index < vertexIndexList.Length
        invariant 0 <= index <= vertexIndexList.Length
        invariant forall j :: 0 <= j < index ==> originalVertexIndexList[j] != oldIndex
        invariant vertexIndexList[..] == old(vertexIndexList[..])
      {
        if originalVertexIndexList[index] == oldIndex {
          vertexIndexList[index] := newIndex;
          assert vertexIndexList[..] == old(vertexIndexList[..])[index := newIndex];
          return;
        }
        index := index + 1;
      }
    }

    /** `UpdateTextureVertexIndex`: as `UpdateVertexIndex`, on the UV lists. */
    method UpdateTextureVertexIndex(oldIndex: int, newIndex: int)
      requires Valid()
      modifies textureVertexIndexList
      ensures Valid() && Rec() == UpdateTexture(old(Rec()), oldIndex, newIndex)
    {
      var index := 0;
      while index < textureVertexIndexList.Length
        invariant 0 <= index <= textureVertexIndexList.Length
        invariant forall j :: 0 <= j < index ==> originalTextureVertexIndexList[j] != oldIndex
        invariant textureVertexIndexList[..] == old(textureVertexIndexList[..])
      {
        if originalTextureVertexIndexList[index] == oldIndex {
          textureVertexIndexList[index] := newIndex;
          assert textureVertexIndexList[..] == old(textureVertexIndexList[..])[index := newIndex];
          return;
        }
        index := index + 1;
      }
    }

    /** `RevertVertices`: copies the originals back over the current lists. */
    method RevertVertices()
      requires Valid()
      modifies vertexIndexList, textureVertexIndexList
      ensures Valid() && Rec() == Reverted(old(Rec()))
    {
      forall j | 0 <= j < vertexIndexList.Length {
        vertexIndexList[j] := originalVertexIndexList[j];
      }
      forall j | 0 <= j < textureVertexIndexList.Length {
        textureVertexIndexList[j] := originalTextureVertexIndexList[j];
      }
    }
  }
}
