/** The packing half of texture tiling (`PyriteLib/Texture.cs`): each face
    group's UV bounding box becomes a pixel rectangle of the source texture,
    the rectangles are packed into a new atlas, and one UV transform per group
    maps the old texture coordinates onto the packed atlas. */
module Atlas {
  import opened Wrappers
  import opened Rects
  import opened Extents
  import opened Vertices
  import opened Faces
  import opened Uvs
  import opened RectTransforms
  import opened Islands
  import opened MinMax
  import BinPack

  /* ---------- UV rectangles ---------- */

  /** `RectangleF`: a box in texture space, `y` its top (largest V). */
  datatype RectF = RectF(x: real, y: real, width: real, height: real)

  /** The face has three UV indices, each a 1-based position in the UV list. */
  predicate TexturedFace(f: FaceRec, uvCount: nat)
  {
    |f.vt| >= 3 && forall k :: 0 <= k < 3 ==> 1 <= f.vt[k] <= uvCount
  }

  predicate Textured(faces: seq<FaceRec>, uvCount: nat)
  {
    forall i :: 0 <= i < |faces| ==> TexturedFace(faces[i], uvCount)
  }

  /** `GetUVTriangles` for one face: the UVs of its first three corners. */
  function Triangle(f: FaceRec, uvs: seq<Uv>): (r: seq<Uv>)
    requires TexturedFace(f, |uvs|)
    ensures |r| == 3
  {
    [uvs[f.vt[0] - 1], uvs[f.vt[1] - 1], uvs[f.vt[2] - 1]]
  }

  /** The UV corners of a group's faces, face after face. */
  function Corners(faces: seq<FaceRec>, uvs: seq<Uv>, group: seq<nat>): (r: seq<Uv>)
    requires Textured(faces, |uvs|) && Below(group, |faces|)
    ensures |r| == 3 * |group|
  {
    if group == [] then []
    else Triangle(faces[group[0]], uvs) + Corners(faces, uvs, group[1..])
  }

  function Xs(cs: seq<Uv>): (r: seq<real>)
    ensures |r| == |cs| && forall k :: 0 <= k < |cs| ==> r[k] == cs[k].x
  {
    seq(|cs|, k requires 0 <= k < |cs| => cs[k].x)
  }

  function Ys(cs: seq<Uv>): (r: seq<real>)
    ensures |r| == |cs| && forall k :: 0 <= k < |cs| ==> r[k] == cs[k].y
  {
    seq(|cs|, k requires 0 <= k < |cs| => cs[k].y)
  }

  /** The box `FindUVRectangles` computes from a group's UV corners: X is the
      least U, Y the greatest V, and the size spans to the greatest U and the
      least V. */
  function UvRect(cs: seq<Uv>): RectF
    requires |cs| > 0
  {
    var minX := MinOf(Xs(cs));
    var maxX := MaxOf(Xs(cs));
    var minY := MinOf(Ys(cs));
    var maxY := MaxOf(Ys(cs));
    RectF(minX, maxY, maxX - minX, maxY - minY)
  }

  /** The box has a non-negative size, holds every corner, and is the least
      such box: each of its four sides passes through a corner. */
  lemma {:induction false} UvRectBounds(cs: seq<Uv>)
    requires |cs| > 0
    ensures var r := UvRect(cs);
      r.width >= 0.0 && r.height >= 0.0
      && (forall k :: 0 <= k < |cs| ==>
            r.x <= cs[k].x <= r.x + r.width && r.y - r.height <= cs[k].y <= r.y)
      && (exists k :: 0 <= k < |cs| && cs[k].x == r.x)
      && (exists k :: 0 <= k < |cs| && cs[k].x == r.x + r.width)
      && (exists k :: 0 <= k < |cs| && cs[k].y == r.y)
      && (exists k :: 0 <= k < |cs| && cs[k].y == r.y - r.height)
  {
    MinOfBounds(Xs(cs));
    MaxOfBounds(Xs(cs));
    MinOfBounds(Ys(cs));
    MaxOfBounds(Ys(cs));
  }

  /** The UV box of one face group. */
  function IslandRect(faces: seq<FaceRec>, uvs: seq<Uv>, group: seq<nat>): RectF
    requires Textured(faces, |uvs|) && Below(group, |faces|) && group != []
  {
    UvRect(Corners(faces, uvs, group))
  }

  /** `FindUVRectangles`: one box per group, in group order. */
  method FindUVRectangles(faces: seq<FaceRec>, uvs: seq<Uv>, groups: seq<seq<nat>>) returns (rects: array<RectF>)
    requires Textured(faces, |uvs|)
    requires forall a :: 0 <= a < |groups| ==> groups[a] != [] && Below(groups[a], |faces|)
    ensures fresh(rects) && rects.Length == |groups|
    ensures forall i :: 0 <= i < |groups| ==> rects[i] == IslandRect(faces, uvs, groups[i])
  {
    rects := new RectF[|groups|];
    var i := 0;
    while i < |groups|
      invariant 0 <= i <= |groups|
      invariant forall k :: 0 <= k < i ==> rects[k] == IslandRect(faces, uvs, groups[k])
    {
      var corners := Corners(faces, uvs, groups[i]);
      var minX := MinOf(Xs(corners));
      var maxX := MaxOf(Xs(corners));
      var minY := MinOf(Ys(corners));
      var maxY := MaxOf(Ys(corners));
      rects[i] := RectF(minX, maxY, maxX - minX, maxY - minY);
      i := i + 1;
    }
  }

  /* ---------- UV box to pixel rectangle ---------- */

  /** `TransformUVRectToBitmapRect` for one box: the truncated pixel box of a
      `width` x `height` texture (V grows upwards, pixel rows downwards),
      widened by `buffer` pixels on every side. */
  function BitmapRect(r: RectF, width: int, height: int, buffer: int): Rect
  {
    Rect(Trunc(r.x * width as real) - buffer,
         Trunc((1.0 - r.y) * height as real) - buffer,
         Trunc(r.width * width as real) + buffer * 2,
         Trunc(r.height * height as real) + buffer * 2)
  }

  /** For a box inside the texture, the pixel columns number at least
      `2 * buffer` and cover every U of the box, in pixels, with at least
      `buffer - 2` columns to spare on each side: truncation loses less than
      one pixel at each of the two edges. */
  lemma {:induction false} BitmapColumns(r: RectF, width: int, height: int, buffer: int)
    requires 0.0 <= r.x && r.width >= 0.0 && width >= 0
    ensures var b := BitmapRect(r, width, height, buffer);
      b.width >= 2 * buffer
      && b.x as real <= r.x * width as real - buffer as real
      && b.Right() as real >= (r.x + r.width) * width as real + buffer as real - 2.0
  {
    PixelSpan(r.x, r.width, width as real, buffer);
  }

  /** The rows likewise cover every V of the box, V counted downwards from
      the top of the texture. */
  lemma {:induction false} BitmapRows(r: RectF, width: int, height: int, buffer: int)
    requires r.y <= 1.0 && r.height >= 0.0 && height >= 0
    ensures var b := BitmapRect(r, width, height, buffer);
      b.height >= 2 * buffer
      && b.y as real <= (1.0 - r.y) * height as real - buffer as real
      && b.Bottom() as real >= (1.0 - (r.y - r.height)) * height as real + buffer as real - 2.0
  {
    var top := 1.0 - r.y;
    PixelSpan(top, r.height, height as real, buffer);
    assert 1.0 - (r.y - r.height) == top + r.height;
  }

  /** A box of non-negative size keeps at least the buffer on both sides. */
  lemma {:induction false} BitmapMinSize(r: RectF, width: int, height: int, buffer: int)
    requires r.width >= 0.0 && r.height >= 0.0 && width >= 0 && height >= 0
    ensures BitmapRect(r, width, height, buffer).width >= 2 * buffer
    ensures BitmapRect(r, width, height, buffer).height >= 2 * buffer
  {
    var p := r.width * width as real;
    var q := r.height * height as real;
    assert p >= 0.0 && q >= 0.0;
  }

  /** One axis of a pixel rectangle, for a span `lo .. lo + size` scaled to pixels. */
  lemma {:induction false} PixelSpan(lo: real, size: real, scale: real, buffer: int)
    requires lo >= 0.0 && size >= 0.0 && scale >= 0.0
    ensures var start := Trunc(lo * scale) - buffer;
      var extent := Trunc(size * scale) + buffer * 2;
      extent >= 2 * buffer
      && start as real <= lo * scale - buffer as real
      && (start + extent) as real >= (lo + size) * scale + buffer as real - 2.0
  {
    var p := lo * scale;
    var q := size * scale;
    assert p >= 0.0 && q >= 0.0;
    assert (lo + size) * scale == p + q;
  }

  /** `TransformUVRectToBitmapRect`: one pixel rectangle per box, in order. */
  method TransformUVRectToBitmapRect(uvRects: array<RectF>, width: int, height: int, buffer: int) returns (rects: array<Rect>)
    ensures fresh(rects) && rects.Length == uvRects.Length
    ensures forall i :: 0 <= i < uvRects.Length ==> rects[i] == BitmapRect(uvRects[i], width, height, buffer)
  {
    rects := new Rect[uvRects.Length];
    var i := 0;
    while i < uvRects.Length
      invariant 0 <= i <= uvRects.Length
      invariant forall k :: 0 <= k < i ==> rects[k] == BitmapRect(uvRects[k], width, height, buffer)
    {
      rects[i] := BitmapRect(uvRects[i], width, height, buffer);
      i := i + 1;
    }
  }

  /* ---------- PackTextures ---------- */

  /** The atlas side lengths the packing starts from and may not exceed. */
  const InitialAtlasSize := 4096
  const MaxAtlasSize := 16384
  /** The pixels added around each island. */
  const PixelBuffer := 2

  /** A packing of `source`: one rectangle per source rectangle, in order,
      of the same size, inside a `limit` x `limit` square from the origin,
      no two overlapping. */
  predicate PackedAs(packed: seq<Rect>, source: seq<Rect>, limit: int)
  {
    |packed| == |source|
    && (forall i :: 0 <= i < |packed| ==>
          packed[i].width == source[i].width && packed[i].height == source[i].height
          && packed[i].width != 0 && packed[i].height != 0
          && 0 <= packed[i].x && packed[i].Right() <= limit
          && 0 <= packed[i].y && packed[i].Bottom() <= limit)
    && (forall i, j :: 0 <= i < j < |packed| ==> !BinPack.Overlaps(packed[i], packed[j]))
  }

  /** What remains of the size budget: each restart doubles a side, so this
      shrinks until a side passes `maxSize`. */
  function Budget(width: int, height: int, maxSize: int): nat
  {
    if width > maxSize || height > maxSize then 0 else 2 * maxSize + 2 - width - height
  }

  /** `PackTextures`: inserts the rectangles one by one, best-area-fit and
      without rotation, into a `width` x `height` bin. The first insert that
      fails (a result of zero width or height) restarts the whole packing
      with the shorter side doubled (the width on a tie); once a side
      exceeds `maxSize` the result is `None` (the source's `null`). */
  method PackTextures(source: seq<Rect>, width: int, height: int, maxSize: int) returns (result: Option<seq<Rect>>)
    requires width > 0 && height > 0
    ensures (width > maxSize || height > maxSize) ==> result == None
    ensures result.Some? ==> PackedAs(result.value, source, maxSize)
    decreases Budget(width, height, maxSize)
  {
    if width > maxSize || height > maxSize {
      return None;
    }
    var bp := new BinPack.MaxRectanglesBinPack(width, height, false);
    var rects: seq<Rect> := [];
    var i := 0;
    while i < |source|
      invariant 0 <= i <= |source| && |rects| == i
      invariant bp.Valid() && bp.usedRectangles == rects
      invariant bp.binWidth == width && bp.binHeight == height && !bp.allowRotations
      invariant forall k :: 0 <= k < i ==>
        rects[k].width == source[k].width && rects[k].height == source[k].height
        && rects[k].width != 0 && rects[k].height != 0
    {
      var rect := bp.Insert(source[i].width, source[i].height, BinPack.BestAreaFit);
      if rect.width == 0 || rect.height == 0 {
        result := PackTextures(source, width * (if width <= height then 2 else 1), height * (if height < width then 2 else 1), maxSize);
        return;
      }
      rects := rects + [rect];
      i := i + 1;
    }
    PackedInBin(rects, bp.freeRectangles, width, height, maxSize);
    result := Some(rects);
  }

  /** Rectangles packed in a bin no larger than `limit` lie in the
      `limit` x `limit` square. */
  lemma {:induction false} PackedInBin(used: seq<Rect>, free: seq<Rect>, width: int, height: int, limit: int)
    requires BinPack.Packing(width, height, used, free) && width <= limit && height <= limit
    ensures forall i :: 0 <= i < |used| ==>
      0 <= used[i].x && used[i].Right() <= limit && 0 <= used[i].y && used[i].Bottom() <= limit
    ensures forall i, j :: 0 <= i < j < |used| ==> !BinPack.Overlaps(used[i], used[j])
  {
    forall i | 0 <= i < |used|
      ensures 0 <= used[i].x && used[i].Right() <= limit && 0 <= used[i].y && used[i].Bottom() <= limit
    {
      assert used[i] in used;
    }
  }

  /* ---------- GetFaceList ---------- */

  /** The extent of tile (`tileX`, `tileY`) of a `gridWidth` x `gridHeight`
      grid over the mesh: a slice of the mesh's X and Y range, spanning its
      whole Z range. */
  function TileExtent(size: Extent, gridHeight: int, gridWidth: int, tileX: int, tileY: int): Extent
    requires gridHeight != 0 && gridWidth != 0
  {
    var tileHeight := size.YSize() / gridHeight as real;
    var tileWidth := size.XSize() / gridWidth as real;
    var yOffset := tileHeight * tileY as real;
    var xOffset := tileWidth * tileX as real;
    Extent(size.xMin + xOffset, size.xMin + xOffset + tileWidth,
           size.yMin + yOffset, size.yMin + yOffset + tileHeight,
           size.zMin, size.zMax)
  }

  /** Tiles keep the mesh's Z range, are one grid cell in size, start at the
      mesh's corner, meet their right and upper neighbours edge to edge, and
      the last tile of a row or column ends at the mesh's far side. */
  lemma {:induction false} TileExtentGrid(size: Extent, gridHeight: int, gridWidth: int, tileX: int, tileY: int)
    requires gridHeight > 0 && gridWidth > 0
    ensures var e := TileExtent(size, gridHeight, gridWidth, tileX, tileY);
      e.zMin == size.zMin && e.zMax == size.zMax
      && e.XSize() * gridWidth as real == size.XSize()
      && e.YSize() * gridHeight as real == size.YSize()
      && e.xMax == TileExtent(size, gridHeight, gridWidth, tileX + 1, tileY).xMin
      && e.yMax == TileExtent(size, gridHeight, gridWidth, tileX, tileY + 1).yMin
      && (tileX == 0 ==> e.xMin == size.xMin)
      && (tileY == 0 ==> e.yMin == size.yMin)
      && (tileX == gridWidth - 1 ==> e.xMax == size.xMax)
      && (tileY == gridHeight - 1 ==> e.yMax == size.yMax)
  {
    var tw := size.XSize() / gridWidth as real;
    var th := size.YSize() / gridHeight as real;
    assert tw * gridWidth as real == size.XSize();
    assert th * gridHeight as real == size.YSize();
    assert tw * tileX as real + tw == tw * (tileX + 1) as real;
    assert th * tileY as real + th == th * (tileY + 1) as real;
    assert tw * (gridWidth - 1) as real + tw == tw * gridWidth as real;
    assert th * (gridHeight - 1) as real + th == th * gridHeight as real;
  }

  /** The faces at least one of whose vertices lies in `e`, in mesh order. */
  function SelectFaces(faces: seq<FaceRec>, vertices: seq<Vertex>, e: Extent): (r: seq<FaceRec>)
    requires forall i :: 0 <= i < |faces| ==> IndicesIn(faces[i], |vertices|)
    ensures |r| <= |faces|
  {
    if faces == [] then []
    else
      var rest := SelectFaces(faces[1..], vertices, e);
      if FaceInExtent(faces[0], vertices, e) then [faces[0]] + rest else rest
  }

  /** `GetFaceList` keeps exactly the faces with a vertex in the tile. */
  lemma {:induction false} SelectFacesMembers(faces: seq<FaceRec>, vertices: seq<Vertex>, e: Extent)
    requires forall i :: 0 <= i < |faces| ==> IndicesIn(faces[i], |vertices|)
    ensures forall f :: f in SelectFaces(faces, vertices, e) <==>
      f in faces && IndicesIn(f, |vertices|) && FaceInExtent(f, vertices, e)
  {
    if faces != [] {
      SelectFacesMembers(faces[1..], vertices, e);
      assert faces == [faces[0]] + faces[1..];
    }
  }

  /* ---------- the transforms ---------- */

  /** The UV transform for one island: the source pixel rectangle `s` of a
      `width` x `height` texture, in texture space, moved to the packed
      rectangle `d` of the `newWidth` x `newHeight` atlas. */
  function Synthesize(s: Rect, d: Rect, width: int, height: int, newWidth: int, newHeight: int): RectangleTransform
    requires width > 0 && height > 0 && newWidth > 0 && newHeight > 0
  {
    var w := width as real;
    var h := height as real;
    var nw := newWidth as real;
    var nh := newHeight as real;
    RectangleTransform(
      left := s.x as real / w,
      right := s.Right() as real / w,
      top := 1.0 - s.y as real / h,
      bottom := 1.0 - s.Bottom() as real / h,
      offsetX := s.x as real / w - d.x as real / nw,
      offsetY := s.y as real / h - d.y as real / nh,
      scaleX := w / nw,
      scaleY := h / nh)
  }

  /** The transform's rectangle is the source pixel rectangle in texture
      space, and its scales turn source pixels into atlas pixels. */
  lemma {:induction false} SynthesizeBounds(s: Rect, d: Rect, width: int, height: int, newWidth: int, newHeight: int)
    requires width > 0 && height > 0 && newWidth > 0 && newHeight > 0
    ensures var t := Synthesize(s, d, width, height, newWidth, newHeight);
      t.left * width as real == s.x as real && t.right * width as real == s.Right() as real
      && (1.0 - t.top) * height as real == s.y as real
      && (1.0 - t.bottom) * height as real == s.Bottom() as real
      && t.scaleX * newWidth as real == width as real && t.scaleY * newHeight as real == height as real
  {
  }

  /** Applied to a texture vertex, the transform moves it by exactly the
      offset between the source and the packed rectangle, in pixels: column
      `u * width` of the texture becomes column `u' * newWidth` of the atlas,
      and row `(1 - v) * height` becomes row `(1 - v') * newHeight`. */
  lemma {:induction false} SynthesizeTranslates(s: Rect, d: Rect, width: int, height: int, newWidth: int, newHeight: int, u: Uv)
    requires width > 0 && height > 0 && newWidth > 0 && newHeight > 0
    requires !u.transformed
    ensures var r := TransformUv(u, Synthesize(s, d, width, height, newWidth, newHeight));
      r.x * newWidth as real == u.x * width as real - s.x as real + d.x as real
      && (1.0 - r.y) * newHeight as real == (1.0 - u.y) * height as real - s.y as real + d.y as real
  {
    var t := Synthesize(s, d, width, height, newWidth, newHeight);
    TransformUvFormula(u, t);
    var r := TransformUv(u, t);
    PixelShift(u.x, s.x as real, d.x as real, width as real, newWidth as real, r.x);
    PixelShift(1.0 - u.y, s.y as real, d.y as real, height as real, newHeight as real, 1.0 - r.y);
  }

  /** One axis of `SynthesizeTranslates`: scaling about `a / w` by `w / nw`
      and shifting by `a / w - b / nw` is the pixel translation by `b - a`. */
  lemma {:induction false} PixelShift(p: real, a: real, b: real, w: real, nw: real, q: real)
    requires w > 0.0 && nw > 0.0
    requires q == a / w + (p - a / w) * (w / nw) - (a / w - b / nw)
    ensures q * nw == p * w - a + b
  {
    var k := w / nw;
    assert k * nw == w;
    assert q == (p - a / w) * k + b / nw;
    assert (p - a / w) * k * nw == (p - a / w) * w;
    assert (a / w) * w == a;
    assert (b / nw) * nw == b;
  }

  /** `Max(r => r.X + r.Width)`: the atlas width the packing needs. */
  function MaxRight(rs: seq<Rect>): int
    requires |rs| > 0
  {
    if |rs| == 1 then rs[0].Right()
    else
      var m := MaxRight(rs[1..]);
      if rs[0].Right() >= m then rs[0].Right() else m
  }

  /** `Max(r => r.Y + r.Height)`: the atlas height the packing needs. */
  function MaxBottom(rs: seq<Rect>): int
    requires |rs| > 0
  {
    if |rs| == 1 then rs[0].Bottom()
    else
      var m := MaxBottom(rs[1..]);
      if rs[0].Bottom() >= m then rs[0].Bottom() else m
  }

  /** The cropped atlas holds every packed rectangle and is no wider or
      taller than it needs to be. */
  lemma {:induction false} MaxEdgesBound(rs: seq<Rect>)
    requires |rs| > 0
    ensures forall k :: 0 <= k < |rs| ==> rs[k].Right() <= MaxRight(rs) && rs[k].Bottom() <= MaxBottom(rs)
    ensures exists k :: 0 <= k < |rs| && rs[k].Right() == MaxRight(rs)
    ensures exists k :: 0 <= k < |rs| && rs[k].Bottom() == MaxBottom(rs)
  {
    if |rs| == 1 {
      assert rs[0].Right() == MaxRight(rs) && rs[0].Bottom() == MaxBottom(rs);
    } else {
      var tail := rs[1..];
      MaxEdgesBound(tail);
      forall k | 1 <= k < |rs| ensures rs[k].Right() <= MaxRight(rs) && rs[k].Bottom() <= MaxBottom(rs) {
        assert rs[k] == tail[k - 1];
      }
      var i :| 0 <= i < |tail| && tail[i].Right() == MaxRight(tail);
      var j :| 0 <= j < |tail| && tail[j].Bottom() == MaxBottom(tail);
      assert rs[i + 1] == tail[i] && rs[j + 1] == tail[j];
      if rs[0].Right() >= MaxRight(tail) {
        assert rs[0].Right() == MaxRight(rs);
      } else {
        assert rs[i + 1].Right() == MaxRight(rs);
      }
      if rs[0].Bottom() >= MaxBottom(tail) {
        assert rs[0].Bottom() == MaxBottom(rs);
      } else {
        assert rs[j + 1].Bottom() == MaxBottom(rs);
      }
    }
  }

  /* ---------- GenerateTextureTile ---------- */

  /** The faces of the tile, given to `GenerateTextureTile`'s callers. */
  function TileFaces(size: Extent, faces: seq<FaceRec>, vertices: seq<Vertex>,
                     gridHeight: int, gridWidth: int, tileX: int, tileY: int): seq<FaceRec>
    requires gridHeight != 0 && gridWidth != 0
    requires forall i :: 0 <= i < |faces| ==> IndicesIn(faces[i], |vertices|)
  {
    SelectFaces(faces, vertices, TileExtent(size, gridHeight, gridWidth, tileX, tileY))
  }

  /** The pixel rectangle of each island of `chunk`, padded by `PixelBuffer`. */
  predicate IslandRects(chunk: seq<FaceRec>, uvs: seq<Uv>, groups: seq<seq<nat>>, source: seq<Rect>,
                        width: int, height: int)
  {
    Textured(chunk, |uvs|)
    && (forall a :: 0 <= a < |groups| ==> groups[a] != [] && Below(groups[a], |chunk|))
    && |source| == |groups|
    && forall i :: 0 <= i < |groups| ==>
         source[i] == BitmapRect(IslandRect(chunk, uvs, groups[i]), width, height, PixelBuffer)
  }

  /** `GenerateTextureTile` without the image work: selects the tile's
      faces, groups them into islands, packs the islands' padded pixel
      rectangles into an atlas starting at 4096 x 4096 and growing to at
      most 16384 x 16384, crops the atlas to the packed rectangles, and
      returns one UV transform per island. A tile without faces yields no
      transforms. A tile face without three UV indices naming UVs makes the
      triangle lookup throw, and a packing that does not fit is the source's
      null dereference: both are failures here. */
  method GenerateTextureTile(size: Extent, faces: seq<FaceRec>, vertices: seq<Vertex>, uvs: seq<Uv>,
                             textureWidth: int, textureHeight: int,
                             gridHeight: int, gridWidth: int, tileX: int, tileY: int)
    returns (result: Result<seq<RectangleTransform>>, ghost groups: seq<seq<nat>>,
             ghost source: seq<Rect>, ghost packed: seq<Rect>)
    requires gridHeight != 0 && gridWidth != 0
    requires textureWidth > 0 && textureHeight > 0
    requires forall i :: 0 <= i < |faces| ==> IndicesIn(faces[i], |vertices|)
    ensures var chunk := TileFaces(size, faces, vertices, gridHeight, gridWidth, tileX, tileY);
      (chunk == [] ==> result == Success([]))
      && (chunk != [] ==> GroupsOk(chunk, groups) && Covered(|chunk|, groups, []) && |groups| > 0)
      && (chunk != [] && !Textured(chunk, |uvs|) ==> result.Failure?)
      && (chunk != [] && Textured(chunk, |uvs|) ==>
            IslandRects(chunk, uvs, groups, source, textureWidth, textureHeight))
      && (result.Success? && chunk != [] ==>
            Textured(chunk, |uvs|)
            && PackedAs(packed, source, MaxAtlasSize)
            && MaxRight(packed) > 0 && MaxBottom(packed) > 0
            && |result.value| == |groups|
            && forall i :: 0 <= i < |groups| ==>
                 result.value[i] == Synthesize(source[i], packed[i], textureWidth, textureHeight,
                                               MaxRight(packed), MaxBottom(packed)))
  {
    var e := TileExtent(size, gridHeight, gridWidth, tileX, tileY);
    var chunk := SelectFaces(faces, vertices, e);
    if chunk == [] {
      return Success([]), [], [], [];
    }
    if !Textured(chunk, |uvs|) {
      // the islands are found first; the triangle lookup then throws
      groups := FindConnectedFaces(chunk);
      assert 0 in [] || exists a :: 0 <= a < |groups| && 0 in groups[a];
      return Failure("IndexOutOfRangeException: a tile face has no UV triangle"), groups, [], [];
    }
    var grouped, sourceSeq := IslandRectangles(chunk, uvs, textureWidth, textureHeight);
    groups, source := grouped, sourceSeq;
    result, packed := PackIslands(chunk, uvs, grouped, sourceSeq, textureWidth, textureHeight);
  }

  /** The last steps of `GenerateTextureTile`: packs the islands' padded
      rectangles, crops the atlas to them and builds one transform per
      island; a packing that does not fit fails. */
  method PackIslands(chunk: seq<FaceRec>, uvs: seq<Uv>, groups: seq<seq<nat>>, source: seq<Rect>,
                     width: int, height: int)
    returns (result: Result<seq<RectangleTransform>>, ghost packed: seq<Rect>)
    requires IslandRects(chunk, uvs, groups, source, width, height) && |groups| > 0
    requires width > 0 && height > 0
    ensures result.Success? ==>
      PackedAs(packed, source, MaxAtlasSize)
      && MaxRight(packed) > 0 && MaxBottom(packed) > 0
      && |result.value| == |groups|
      && forall i :: 0 <= i < |groups| ==>
           result.value[i] == Synthesize(source[i], packed[i], width, height, MaxRight(packed), MaxBottom(packed))
  {
    var destination := PackTextures(source, InitialAtlasSize, InitialAtlasSize, MaxAtlasSize);
    if destination.None? {
      return Failure("no packing of the islands fits the largest atlas"), [];
    }
    var destinationRects := destination.value;
    packed := destinationRects;
    IslandWidths(chunk, uvs, groups, source, destinationRects, width, height);
    var newWidth := MaxRight(destinationRects);
    var newHeight := MaxBottom(destinationRects);
    var transforms := BuildTransforms(source, destinationRects, width, height, newWidth, newHeight);
    result := Success(transforms[..]);
  }

  /** The first steps of `GenerateTextureTile` on a tile with faces: the
      islands and their padded pixel rectangles. */
  method IslandRectangles(chunk: seq<FaceRec>, uvs: seq<Uv>, width: int, height: int)
    returns (groups: seq<seq<nat>>, source: seq<Rect>)
    requires chunk != [] && Textured(chunk, |uvs|)
    ensures GroupsOk(chunk, groups) && Covered(|chunk|, groups, []) && |groups| > 0
    ensures IslandRects(chunk, uvs, groups, source, width, height)
  {
    groups := FindConnectedFaces(chunk);
    assert 0 in [] || exists a :: 0 <= a < |groups| && 0 in groups[a];
    GroupsNonEmpty(chunk, groups);
    var uvRects := FindUVRectangles(chunk, uvs, groups);
    var sourceRects := TransformUVRectToBitmapRect(uvRects, width, height, PixelBuffer);
    source := sourceRects[..];
  }

  /** The transform loop of `GenerateTextureTile`: one transform per source
      rectangle, moving it to its packed place in the cropped atlas. */
  method BuildTransforms(source: seq<Rect>, packed: seq<Rect>, width: int, height: int, newWidth: int, newHeight: int)
    returns (transforms: array<RectangleTransform>)
    requires |packed| == |source|
    requires width > 0 && height > 0 && newWidth > 0 && newHeight > 0
    ensures fresh(transforms) && transforms.Length == |source|
    ensures forall i :: 0 <= i < |source| ==>
      transforms[i] == Synthesize(source[i], packed[i], width, height, newWidth, newHeight)
  {
    transforms := new RectangleTransform[|source|];
    var i := 0;
    while i < |source|
      invariant 0 <= i <= |source|
      invariant forall k :: 0 <= k < i ==>
        transforms[k] == Synthesize(source[k], packed[k], width, height, newWidth, newHeight)
    {
      transforms[i] := Synthesize(source[i], packed[i], width, height, newWidth, newHeight);
      i := i + 1;
    }
  }

  lemma {:induction false} GroupsNonEmpty(faces: seq<FaceRec>, groups: seq<seq<nat>>)
    requires GroupsOk(faces, groups)
    ensures forall a :: 0 <= a < |groups| ==> groups[a] != [] && Below(groups[a], |faces|)
  {
  }

  /** Every island's padded rectangle, and so its packed copy, is at least
      `2 * PixelBuffer` pixels wide and tall, so the cropped atlas is not
      empty. */
  lemma {:induction false} IslandWidths(chunk: seq<FaceRec>, uvs: seq<Uv>, groups: seq<seq<nat>>, source: seq<Rect>,
                     packed: seq<Rect>, width: int, height: int)
    requires IslandRects(chunk, uvs, groups, source, width, height) && |groups| > 0
    requires PackedAs(packed, source, MaxAtlasSize)
    requires width > 0 && height > 0
    ensures MaxRight(packed) > 0 && MaxBottom(packed) > 0
  {
    var r := IslandRect(chunk, uvs, groups[0]);
    UvRectBounds(Corners(chunk, uvs, groups[0]));
    BitmapMinSize(r, width, height, PixelBuffer);
    assert packed[0].width == source[0].width >= 4;
    assert packed[0].height == source[0].height >= 4;
    MaxEdgesBound(packed);
  }
}
