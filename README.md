# Pyrite mesh tiling, modelled in Dafny

Pyrite cuts a large textured OBJ mesh into a grid of cubes and writes each cube as an OBJ or EBO file.
Texture coordinates are re-mapped onto per-tile texture atlases.
This project models the core of that pipeline and proves properties of it:

- **The mesh store** (`Mesh.Obj`, with the value-level `MeshSpec`, `ObjWriter`, `Ebo` and `UvTransforms`).
  - Line dispatch with 1-based numbering.
  - The bounding and cubical boxes.
  - Assignment of every face to one grid cell.
  - Cropping of faces that leave a cell, by a line/box intersection.
  - Dense renumbering for OBJ output.
  - The back-referencing EBO stream.
  - The UV-transform pass, which clones a UV that is already transformed.
- **Spatial helpers** (`Spatial`, `Extents`, `Vectors`): grid enumeration, segment/plane and segment/box intersection, box edges, and the vector operators, including 32-bit wrap-around and truncating division for `Vector3`.
- **The MaxRects bin packer** (`BinPack.MaxRectanglesBinPack`). It is a class over its used and free rectangle lists. Its invariant is that used rectangles lie in the bin, pairwise disjoint, and clear of every free rectangle.
- **Texture tiling** (`Islands`, `Atlas`): grouping faces into islands connected by shared UVs, their bounding boxes in UV and pixel space, the atlas growth loop around the packer, and the synthesis of one UV transform per island.
- **Faces and texture vertices** (`Faces.Face`, `Uvs.TextureVertex`, `CuberUvs.CuberTextureVertex`, `RectTransforms`): parsing, first-match index rewriting keyed on the original indices, exact revert, transform-at-most-once, and cloning.
- **The existence-bitmap codec** (`Metadata`, `Base64`): keys sorted by (X, Y, Z), bits packed least significant first, and Base64 per section 4 of RFC 4648, with the round trip proved.
- **The grid-size wizard** (`Wizard`) and the table keys of `WorkEntity` (`Models`).

Where the source mutates an object, the model is a class with `modifies` clauses. Each method is proved against a function of the old state, and the properties are proved about those functions. Pure code is modelled as functions and lemmas.

Throws become `Failure` results that carry the exception's name. Files, streams and trace output become returned sequences of lines or records.

## Model

| member | source | states |
|---|---|---|
| Atlas.Triangle | PyriteLib/Texture.cs:230-236 | a face's UV triangle is exactly three texture vertices, looked up through the face's first three UV indices |
| Atlas.Corners | PyriteLib/Texture.cs:185-186 | a group's UV corners are three per face of the group |
| Atlas.UvRectBounds | PyriteLib/Texture.cs:186-192 | an island's UV box has non-negative width and height, contains every UV corner of the island, and each of its four sides passes through a corner (minimum and maximum U and V) |
| Atlas.FindUVRectangles | PyriteLib/Texture.cs:177-196 | one UV box per island, in island order, each the bounding box of that island's corners |
| Atlas.BitmapColumns | PyriteLib/Texture.cs:166-171 | the padded pixel rectangle is at least two buffers wide and its columns cover the island's U span scaled to the texture width, with the buffer on both sides less truncation |
| Atlas.BitmapRows | PyriteLib/Texture.cs:166-171 | the pixel rows cover the island's V span counted down from the top of the texture, with the buffer on both sides less truncation |
| Atlas.BitmapMinSize | PyriteLib/Texture.cs:170-171 | a pixel rectangle keeps at least the pixel buffer on both sides in each direction |
| Atlas.TransformUVRectToBitmapRect | PyriteLib/Texture.cs:160-175 | one pixel rectangle per UV box, in order, each the truncated and padded scaling of its box |
| Atlas.PackTextures | PyriteLib/Texture.cs:261-284 | a bin larger than the maximum size gives no packing (null); a packing places every source rectangle with its own size, non-empty, inside the maximum square, and no two placed rectangles overlap |
| Atlas.PackedInBin | PyriteLib/Texture.cs:268-279 | rectangles used by a bin packer whose bin is no larger than the limit lie in the limit square and are pairwise disjoint |
| Atlas.TileExtentGrid | PyriteLib/Texture.cs:238-254 | tile extents split the mesh's X and Y extent into a grid of equal tiles that abut; the first and last tiles meet the mesh's sides; the Z range is the mesh's |
| Atlas.SelectFaces | PyriteLib/Texture.cs:257 | the tile's face list is no longer than the mesh's |
| Atlas.SelectFacesMembers | PyriteLib/Texture.cs:257 | a face is kept for the tile exactly when it is a face of the mesh with a vertex inside the tile's extent |
| Atlas.SynthesizeBounds | PyriteLib/Texture.cs:140-151 | the transform's left, right, top and bottom are the source pixel rectangle in texture coordinates, and its scales are old size over cropped atlas size |
| Atlas.SynthesizeTranslates | PyriteLib/Texture.cs:140-151 | applying the transform to an untransformed UV moves its pixel position by exactly the offset from the source rectangle to its packed place |
| Atlas.MaxEdgesBound | PyriteLib/Texture.cs:104-105 | the cropped atlas width and height reach every packed rectangle's right and bottom edge and are attained by some rectangle |
| Atlas.IslandWidths | PyriteLib/Texture.cs:104-105 | the cropped atlas of a non-empty packing has positive width and height |
| Atlas.GenerateTextureTile | PyriteLib/Texture.cs:75-158 | a tile without faces gives no transforms; otherwise its faces are grouped into islands that cover them, and the tile fails when one of its faces lacks three UV indices naming UVs (the triangle lookup of Texture.cs:230-235 throws); a successful tile has every face textured, each island's padded pixel rectangle packed without overlap inside 16384 x 16384, and one transform per island, moving its source rectangle to its packed place in the cropped atlas |
| Atlas.IslandRectangles | PyriteLib/Texture.cs:94-96 | the islands of a non-empty tile cover its faces, and each island's source rectangle is the padded pixel rectangle of its UV box |
| Atlas.PackIslands | PyriteLib/Texture.cs:100-156 | when the islands' padded rectangles pack, the packing is complete, correctly sized, non-overlapping and inside 16384 x 16384, the cropped atlas is not empty, and each island gets the transform moving its source rectangle to its packed place |
| Atlas.BuildTransforms | PyriteLib/Texture.cs:133-154 | one transform per source rectangle, in order, each built from the source rectangle, its packed rectangle and the two texture sizes |
| Islands.RemoveFirst | PyriteLib/Texture.cs:221 | removing a face drops exactly one occurrence when present and none otherwise; on a sorted list the rest stays sorted and holds every other face |
| Islands.Matching | PyriteLib/Texture.cs:217 | a round's matches are the remaining faces, in their order, that share a texture vertex with one of the previous round's matches |
| Islands.FoundShares | PyriteLib/Texture.cs:217 | every face a round finds shares a texture vertex with one of the previous round's matches |
| Islands.GrowLinked | PyriteLib/Texture.cs:217-218 | appending a round's finds to a connected group whose last faces are the previous round's matches keeps it connected |
| Islands.RemoveMatches | PyriteLib/Texture.cs:219-222 | removing the matches leaves the remaining faces that are not matches, sorted, shorter by the number of matches |
| Islands.GrowGroup | PyriteLib/Texture.cs:206-224 | the group starts with its seed face, has no repeats, is one island (every face after the seed shares a texture vertex with an earlier face of the group), and the faces left over share no texture vertex with any face of the group; every remaining face ends in the group or the rest |
| Islands.FindConnectedFaces | PyriteLib/Texture.cs:198-228 | the groups are non-empty, have no repeats, each starts with its smallest face and is one connected island, faces of different groups share no texture vertex, and together they cover every face |
| Islands.CloseGroup | PyriteLib/Texture.cs:204-207 | adding a finished group keeps the groups well formed and the remaining faces outside all of them |
| Islands.FlattenMembers | PyriteLib/Texture.cs:202 | the flattened groups hold exactly the faces of some group |
| Islands.FlattenDistinct | PyriteLib/Texture.cs:198-228 | no face appears twice across the groups |
| Islands.GroupsApart | PyriteLib/Texture.cs:198-228 | faces of two different groups are different faces that share no texture vertex in either direction, and groups are ordered by their first face |
| Islands.GroupsPartition | PyriteLib/Texture.cs:198-228 | the groups partition the faces: each face index appears exactly once and the group sizes add up to the face count |
| Islands.SharesUvSymmetric | PyriteLib/Texture.cs:217 | sharing a texture vertex is symmetric, so the grouping does not depend on which face is asked |
| Base64.CharOf | PyriteLib/SerializationUtilties.cs:27 | no alphabet character is the padding character |
| Base64.AlphabetRoundTrip | PyriteLib/SerializationUtilties.cs:27 | each of the 64 values is read back from its character |
| Base64.AlphabetOnto | PyriteLib/SerializationUtilties.cs:34 | each character the decoder accepts is the character of its value |
| Base64.EncodeGroup | PyriteLib/SerializationUtilties.cs:27 | one to three bytes become exactly four characters |
| Base64.Encode | PyriteLib/SerializationUtilties.cs:27 | the encoding is four characters per started group of three bytes |
| Base64.DecodeGroup | PyriteLib/SerializationUtilties.cs:34 | a decoded group of four characters gives one to three bytes |
| Base64.GroupRoundTrip | PyriteLib/SerializationUtilties.cs:27-34 | decoding an encoded group gives its bytes back; a short group only ends the input |
| Base64.EncodeDecode | PyriteLib/SerializationUtilties.cs:27-34 | decoding the Base64 string of any byte sequence succeeds and gives the bytes back |
| Base64.EncodeAlphabet | PyriteLib/SerializationUtilties.cs:27 | every character of an encoding is an alphabet character or padding, and padding appears only in the last two places |
| Metadata.KeyOrderTransitive | PyriteLib/SerializationUtilties.cs:15 | the (X, Y, Z) key order is transitive, both for "not after" and for "before then not after" |
| Metadata.InsertKey | PyriteLib/SerializationUtilties.cs:15 | inserting a key lengthens the key list by one |
| Metadata.InsertKeyMultiset | PyriteLib/SerializationUtilties.cs:15 | inserting a key adds exactly that key to the keys |
| Metadata.InsertKeySorted | PyriteLib/SerializationUtilties.cs:15 | inserting a key into keys in (X, Y, Z) order keeps them in order |
| Metadata.SortKeys | PyriteLib/SerializationUtilties.cs:15 | ordering keeps the number of keys |
| Metadata.SortKeysSpec | PyriteLib/SerializationUtilties.cs:15 | the ordered keys are in (X, Y, Z) order and are a permutation of the input keys |
| Metadata.Keys | PyriteLib/SerializationUtilties.cs:15 | the dictionary's keys are its entries' keys, one per entry in entry order |
| Metadata.ValueAtEntry | PyriteLib/SerializationUtilties.cs:21 | with distinct keys, looking a key up gives the value stored under it |
| Metadata.NoRepeatsCounts | PyriteLib/SerializationUtilties.cs:37-41 | a key list has no repeated key exactly when every key occurs at most once in its multiset |
| Metadata.NoRepeatsPermutation | PyriteLib/SerializationUtilties.cs:37-41 | reordering the cubes neither creates nor removes a repeated cube |
| Metadata.ByteOf | PyriteLib/SerializationUtilties.cs:24-25 | up to n bits packed least significant first give a value below 2 to the n |
| Metadata.Pow2Bound | PyriteLib/SerializationUtilties.cs:24-25 | eight bits or fewer fit in a byte |
| Metadata.BitOfByte | PyriteLib/SerializationUtilties.cs:24-25 | bit j of a packed byte is the j-th packed bit, and zero past the bits given |
| Metadata.ZeroBits | PyriteLib/SerializationUtilties.cs:24 | a fresh byte array is all zero bits |
| Metadata.Pack | PyriteLib/SerializationUtilties.cs:24-25 | n bits fill (n + 7) / 8 bytes |
| Metadata.PackedByte | PyriteLib/SerializationUtilties.cs:25 | bit b of byte j is bit 8j + b of the bit array, or zero past its end |
| Metadata.Unpack | PyriteLib/SerializationUtilties.cs:35 | a bit array built from bytes has eight bits per byte |
| Metadata.PackUnpack | PyriteLib/SerializationUtilties.cs:24-35 | unpacking the packed bytes gives the bits back, followed only by zero bits |
| Metadata.ExistenceBits | PyriteLib/SerializationUtilties.cs:17-22 | one bit per dictionary key, the i-th set exactly when the value of the i-th key in (X, Y, Z) order is positive |
| Metadata.AddAll | PyriteLib/SerializationUtilties.cs:39-42 | filling the result succeeds exactly when there are enough bits and no key repeats, and then pairs the i-th ordered key with bit i |
| Metadata.AddAllStep | PyriteLib/SerializationUtilties.cs:41 | one Add after i keys: out of range once the bits run out, a duplicate-key error on a key already present, and otherwise the key with its bit appended |
| Metadata.AddAllPrefix | PyriteLib/SerializationUtilties.cs:39-42 | the first key that fails decides the error of the whole loop |
| Metadata.DecodeMetadata | PyriteLib/SerializationUtilties.cs:30-45 | decoding succeeds exactly when the string is Base64, the bits cover the cubes and no cube is given twice; the result lists the cubes in (X, Y, Z) order, each with its own bit |
| Metadata.DecodeEncoded | PyriteLib/SerializationUtilties.cs:13-45 | decoding the encoding with the same (distinct) cubes gives each cube in key order with its existence bit |
| Metadata.MetadataRoundTrip | PyriteLib/SerializationUtilties.cs:13-45 | the round trip succeeds with one entry per cube; each cube's flag is whether its value was positive, and every (cube, value > 0) pair is in the result |
| Metadata.EncodeMetadataToBase64 | PyriteLib/SerializationUtilties.cs:13-28 | the loop fills the bit array key by key, and the method returns the Base64 text of the packed existence bits |
| Metadata.DecodeMetadataFromBase64 | PyriteLib/SerializationUtilties.cs:30-45 | the loop's result, or its first error, is exactly the one decoding specifies |
| Base64.OneByteRoundTrip | PyriteLib/SerializationUtilties.cs:27-34 | one byte, encoded with two padding characters, decodes back |
| Base64.TwoBytesRoundTrip | PyriteLib/SerializationUtilties.cs:27-34 | two bytes, encoded with one padding character, decode back |
| Base64.ThreeBytesRoundTrip | PyriteLib/SerializationUtilties.cs:27-34 | three bytes decode back from their four characters, at the end of the input or before more |
| Base64.DecodedBytes | PyriteLib/SerializationUtilties.cs:34 | a group of valid characters decodes to three bytes less its padding, each rejoined from the sextets around it |
| Metadata.AddEach | PyriteLib/SerializationUtilties.cs:39-42 | the Add loop gives exactly the specified result or first error |
| Metadata.KeyedBits | PyriteLib/SerializationUtilties.cs:15-22 | pairing the ordered keys with their bits gives one pair per entry, each flag saying whether that key's value is positive, and every entry's pair appears |
| Extents.Edges | PyriteLib/Extent.cs:25-58 | a box has twelve edges |
| Extents.CornerInjective | PyriteLib/Extent.cs:29-36 | on a box of positive size the eight corners are distinct, and two corners differ in as many coordinates as their min/max choices |
| Extents.EdgesJoinAdjacentCorners | PyriteLib/Extent.cs:38-56 | each of the twelve edges joins two corners of the box that differ in exactly one coordinate |
| Extents.EdgesDistinct | PyriteLib/Extent.cs:38-56 | no two edges are the same segment, in either direction |
| Extents.EdgesComplete | PyriteLib/Extent.cs:38-56 | every pair of corners one axis apart is joined by one of the edges |
| Vectors.AddSubInverse | PyriteLib/Vector3D.cs:30-38 | vector subtraction undoes vector addition, and addition undoes subtraction |
| Vectors.MulDivInverse | PyriteLib/Vector3D.cs:40-58 | component-wise division undoes component-wise multiplication by a vector without zero components, and division by a non-zero scalar undoes scaling by it |
| Vectors.MulIsHadamard | PyriteLib/Vector3D.cs:40-43 | the vector product is component-wise: commutative, with the all-ones vector as unit, and the x and y axes multiply to zero |
| Vectors.Wrap32 | PyriteLib/Vector3.cs:24-37 | an unchecked 32-bit result is in the int range, agrees with the exact value when that is in range, and differs from it by a multiple of 2^32 |
| Vectors.Wrap32Shift | PyriteLib/Vector3.cs:24-37 | wrapping depends only on the value modulo 2^32 |
| Vectors.WrapAddSub | PyriteLib/Vector3.cs:24-32 | for one component, subtracting y after adding y with wrap-around gives x back |
| Vectors.AddSubInverse3 | PyriteLib/Vector3.cs:24-32 | integer vector subtraction undoes addition even when the addition overflows |
| Vectors.TruncDivDiffersFromEuclidean | PyriteLib/Vector3.cs:39-42 | one operand pair where C#'s truncating quotient and Euclidean division differ: -7 / 2 is -3, not -4 |
| Vectors.TruncDivRemainder | PyriteLib/Vector3.cs:39-42 | for every operand pair, the remainder left by the quotient is smaller than the divisor in size and takes the dividend's sign, which is what truncation toward zero means |
| Vectors.TruncDivSigns | PyriteLib/Vector3.cs:39-42 | negating either operand negates the quotient, and on a non-negative dividend and a positive divisor it is Euclidean division |
| Vectors.TruncDivInRange | PyriteLib/Vector3.cs:39-42 | the quotient of two 32-bit integers is a 32-bit integer, except int.MinValue / -1 |
| Vectors.Div3 | PyriteLib/Vector3.cs:39-42 | component-wise integer division fails exactly on a zero divisor component or on int.MinValue / -1, and otherwise gives 32-bit components |
| Vertices.ToVector3D | PyriteLib/Vector3D.cs:23-28 | the vector of a vertex has the vertex's X, Y and Z |
| MinMax.MinOfBounds | PyriteLib/Texture.cs:187-189 | the minimum of a non-empty sequence is at most every element and is one of them |
| MinMax.MaxOfBounds | PyriteLib/Texture.cs:188-190 | the maximum of a non-empty sequence is at least every element and is one of them |
| Rects.Trunc | PyriteLib/Texture.cs:168-171 | a double cast to int rounds toward zero: the result lies within one of the value, on the side of zero |
| Rects.TruncMonotone | PyriteLib/Texture.cs:168-171 | truncation to int is monotone |
| MeshSpec.ParseLine | PyriteLib/Obj.cs:492-523 | a line without tokens is blank and one whose first token is not mtllib, v, vt or f is ignored (both directions); mtllib takes its second token; a face or UV read from a line is freshly loaded, with its current indices or coordinates equal to the original ones |
| MeshSpec.FaceLineRoundTrip | PyriteLib/Obj.cs:369 | a face line as the writer prints it reads back as the same face, freshly loaded |
| MeshSpec.AddRecordOk | PyriteLib/Obj.cs:500-519 | adding a parsed record keeps vertices and UVs numbered by position and faces freshly loaded, and only appends to the lists |
| MeshSpec.ExtendsTrans | PyriteLib/Obj.cs:45-53 | appending twice is appending |
| MeshSpec.LoadLinesFails | PyriteLib/Obj.cs:45-53 | loading fails exactly when some line of the file does not parse |
| MeshSpec.LoadLinesOk | PyriteLib/Obj.cs:45-53 | a successful load keeps the numbering and freshness guarantees and only appends to the lists |
| MeshSpec.BoundsOfTight | PyriteLib/Obj.cs:463-473 | the mesh size holds every vertex and each of its six sides passes through a vertex, so it is the least such box |
| MeshSpec.CubicalOfHolds | PyriteLib/Obj.cs:475-485 | the cubical size shares the size's least corner, has three equal sides equal to the longest side of the size, and holds every vertex the size holds |
| MeshSpec.CellIndexWithin | PyriteLib/Obj.cs:74-97 | a coordinate inside the box gets a cell index within the grid, including the far side, and that cell's interval holds the coordinate |
| MeshSpec.CellOf | PyriteLib/Obj.cs:89-97 | a face's cell, when it has one, is inside the grid |
| MeshSpec.CellFacesMembers | PyriteLib/Obj.cs:87-100 | each cell lists exactly the faces whose first vertex falls in it, each once, in mesh order |
| MeshSpec.FirstVertexInCell | PyriteLib/Obj.cs:89-99 | the cell a face is put in has an extent, as cropping computes it, that holds the face's first vertex |
| MeshSpec.EveryFacePlaced | PyriteLib/Obj.cs:58-100 | after loading, with a positive grid and a box with no empty side, every face gets a cell and that cell's extent holds its first vertex |
| MeshSpec.OutOfBound | PyriteLib/Obj.cs:283-298 | finding out-of-bound vertices fails exactly when a face's first three vertex indices are not all valid; otherwise it lists at most three vertices, all outside the extent, and a corner's vertex is listed exactly when it is outside |
| MeshSpec.Home | PyriteLib/Obj.cs:263-264 | the kept vertex is a vertex of the face that was not cropped |
| MeshSpec.CutTowards | PyriteLib/Obj.cs:266-277 | cutting one cropped vertex keeps the face well formed |
| MeshSpec.RepairFace | PyriteLib/Obj.cs:249-279 | repairing a face keeps it well formed |
| MeshSpec.CutTowardsSound | PyriteLib/Obj.cs:266-277 | a cut appends one vertex, numbered by its position, that lies on the cell's boundary strictly between the cropped and the kept vertex; of the face only its current vertex list changes |
| MeshSpec.RepairFaceSound | PyriteLib/Obj.cs:249-279 | repairing a face only appends vertices, each on the cell's boundary, and changes nothing of the face but its current vertex list |
| MeshSpec.CollectCropped | PyriteLib/Obj.cs:236-247 | collecting out-of-bound vertices fails exactly when a chunk face has an invalid index; otherwise it holds each chunk face's out-of-bound vertices in chunk order |
| MeshSpec.CroppedThen | PyriteLib/Obj.cs:249-280 | cropping one face and then the rest is cropping all of them |
| MeshSpec.RepairFromSound | PyriteLib/Obj.cs:249-280 | repairing the chunk from any face on only appends boundary vertices and changes only those faces' current vertex lists |
| MeshSpec.CropSound | PyriteLib/Obj.cs:212-281 | a successful crop grows the mesh only by vertices on the cell's boundary and changes only the current vertex lists of the chunk's faces |
| Mesh.RevertAll | PyriteLib/Obj.cs:182-186 | reverting every face keeps the face count and reverts each face to its loaded indices |
| Mesh.AddRecordValid | PyriteLib/Obj.cs:500-519 | adding a parsed record keeps vertices and UVs numbered by position and faces well formed; the face list only grows |
| Mesh.ClearCells | PyriteLib/Obj.cs:83-85 | enumerating the grid empties every cell of the face matrix |
| Mesh.FillCells | PyriteLib/Obj.cs:87-100 | over emptied cells, the face loop places every face exactly when each has a cell, and then each cell holds exactly its faces, in mesh order |
| Mesh.AppendFace | PyriteLib/Obj.cs:87-100 | appending face n to its cell extends the invariant that each cell holds, in order, the faces before n whose first vertex falls in it |
| Mesh.FindCropped | PyriteLib/Obj.cs:236-247 | the first crop loop fails exactly when `MeshSpec.CollectCropped` fails, and otherwise returns its result |
| Mesh.UpdateFaces | PyriteLib/Obj.cs:351-352 | updating the faces that use an index is `ObjWriter.RenumberStep` |
| Mesh.VertexPass | PyriteLib/Obj.cs:342-353 | the vertex pass succeeds exactly when renumbering the required vertices succeeds; it then writes one line per required vertex in order and returns the renumbered faces |
| Mesh.UvPass | PyriteLib/Obj.cs:356-366 | the UV pass succeeds exactly when renumbering the required UVs succeeds; it then writes one line per required UV in order and returns the renumbered faces |
| Mesh.WriteObjChunk | PyriteLib/Obj.cs:315-371 | writing the OBJ text succeeds exactly when `ObjWriter.WriteObj` succeeds, and then gives its lines and renumbered faces |
| Mesh.EncodeChunk | PyriteLib/Obj.cs:378-442 | the EBO loop produces exactly the corrected stream (see Findings): the 16-bit face count, each face's three records face by face, and the end marker |
| Mesh.VisitEach | PyriteLib/Obj.cs:118-150 | visiting the UVs of one extent one after the other gives `UvTransforms.VisitAll`'s result |
| Mesh.Obj.constructor | PyriteLib/Obj.cs:13-26 | a new mesh has empty lists, an empty face matrix and no pending reset |
| Mesh.Obj.ProcessLine | PyriteLib/Obj.cs:492-523 | a line is accepted exactly when it parses, and then its record is added to the lists; size, matrix and reset flag are unchanged |
| Mesh.Obj.UpdateSize | PyriteLib/Obj.cs:463-486 | with at least one vertex the size becomes the vertices' bounding box and the cubical size its cube; without vertices it fails (Max of an empty list) and changes nothing |
| Mesh.Obj.PopulateMatrix | PyriteLib/Obj.cs:65-101 | partitioning succeeds exactly when every face has a cell, and then each cell holds exactly its faces, in mesh order |
| Mesh.Obj.LoadObj | PyriteLib/Obj.cs:34-63 | loading succeeds exactly when the grid sizes are non-negative, every line parses, there is a vertex and every face gets a cell; the mesh then holds the loaded lists, its size, its cubical size and a fresh face matrix that partitions the faces by the chosen box |
| Mesh.Obj.CropCube | PyriteLib/Obj.cs:212-281 | cropping a cell succeeds exactly when `MeshSpec.Crop` does, and then the vertex and face lists are its result; textures, matrix and sizes are unchanged |
| Mesh.Obj.RepairChunk | PyriteLib/Obj.cs:249-280 | the repair loop's outcome and new lists are those of repairing the chunk face by face |
| Mesh.Obj.WriteObjFormattedFile | PyriteLib/Obj.cs:315-371 | writing the OBJ file gives the specified lines and renumbered faces, marks the faces as needing a reset, and leaves the vertex and texture lists alone |
| Mesh.Obj.WriteEboFormattedFile | PyriteLib/Obj.cs:373-444 | writing the EBO stream succeeds exactly when every chunk face has three corners with valid indices, and then gives the specified records |
| Mesh.Obj.TransformUVs | PyriteLib/Obj.cs:109-161 | transforming the UVs succeeds exactly when `UvTransforms.TransformAll` does, and then the texture and face lists are its result; vertices, matrix and sizes are unchanged |
| Mesh.Obj.TransformExtentPass | PyriteLib/Obj.cs:113-150 | one extent's pass gives `UvTransforms.TransformExtent`'s texture and face lists for that extent |
| Mesh.TransformExtentValues | PyriteLib/Obj.cs:113-150 | the loop over an extent's UVs gives exactly `UvTransforms.TransformExtent`, its failure included |
| Mesh.Obj.WriteSpecificCube | PyriteLib/Obj.cs:172-210 | writing a cube outside the grid fails; inside it, the outcome, face count, new lists, OBJ lines and EBO records are those of reverting, cropping and writing the cell's chunk |
| Mesh.Obj.ResetFaces | PyriteLib/Obj.cs:181-186 | a pending reset reverts every face and clears the flag; otherwise nothing changes |
| Mesh.Obj.WriteChunk | PyriteLib/Obj.cs:199-209 | the writes after the crop give the EBO records if asked for, then the OBJ lines if asked for, with the chunk's face count |
| Mesh.RepairKeepsValid | PyriteLib/Obj.cs:266-277 | a repair step keeps vertices numbered by position and faces well formed |
| Mesh.CollectedOutside | PyriteLib/Obj.cs:236-247 | every vertex the first crop pass collects lies outside the cell |
| Mesh.WriteObjSteps | PyriteLib/Obj.cs:330-369 | the header, the two renumbering passes and the face lines make up the OBJ writer's output |
| Mesh.Obj.ReadLines | PyriteLib/Obj.cs:45-53 | the line loop succeeds exactly when loading every line in order succeeds, and the mesh lists are then that result; matrix and reset flag are unchanged |
| Mesh.Obj.Partition | PyriteLib/Obj.cs:58-62 | after the lines are read, sizing and partitioning succeed exactly when there is a vertex and every face has a cell of the (cubical, when forced) bounding box; the sizes, the face matrix and the cleared reset flag are then set |
| Mesh.Obj.RepairAt | PyriteLib/Obj.cs:250-278 | one turn of the repair loop fails only where repairing from this face fails, and otherwise leaves what remains to repair from the next face unchanged |
| Mesh.AppendFaceCorners | PyriteLib/Obj.cs:383-440 | the corner loop of one face appends exactly that face's three specified records |
| ObjWriter.UpdateOn | CuberLib/Types/Face.cs:61-91 | renumbering one index of a face keeps it well formed |
| ObjWriter.FirstLoadedUpdate | CuberLib/Types/Face.cs:69-91 | an update keyed on a loaded index reaches exactly the first corner loaded with that index and changes nothing else of the face |
| ObjWriter.Gather | PyriteLib/Obj.cs:321-322 | the gathered indices are exactly the indices of the channel used by some chunk face |
| ObjWriter.Dedup | PyriteLib/Obj.cs:321-322 | Distinct keeps exactly the same indices, each once |
| ObjWriter.RenumberStep | PyriteLib/Obj.cs:351-352 | one renumbering turn keeps the face count and every face well formed |
| ObjWriter.Renumber | PyriteLib/Obj.cs:346-366 | a renumbering pass succeeds exactly when every required index names an entry of the list, and then keeps every face well formed |
| ObjWriter.RenumberKeeps | PyriteLib/Obj.cs:346-366 | a pass changes only the chunk faces' current indices of its own channel |
| ObjWriter.MovedNext | PyriteLib/Obj.cs:344-349 | the n-th required index written gets new index n, and the other indices' fates are unchanged by that turn |
| ObjWriter.CornerStep | PyriteLib/Obj.cs:351-352 | one turn keeps a first-loaded chunk-face corner at the position of its loaded index among the indices written so far, and leaves alone every corner it does not key on |
| ObjWriter.CornerTracks | PyriteLib/Obj.cs:346-353 | from any turn on, the pass succeeds and a first-loaded chunk-face corner ends at the position of its loaded index among all the indices written |
| ObjWriter.CornerKept | PyriteLib/Obj.cs:346-366 | a corner that is not the first loaded with its index, or whose loaded index is not still to be written, keeps the index it holds through the rest of the pass |
| ObjWriter.MovedAll | PyriteLib/Obj.cs:344-353 | once all required indices are written, each has moved to its 1-based position among them |
| ObjWriter.RenumberUnfold | PyriteLib/Obj.cs:346-353 | with each entry's index equal to its position, the pass is one turn renumbering the index itself, then the pass over the rest |
| ObjWriter.RenumberDense | PyriteLib/Obj.cs:346-353 | after a pass, a chunk-face corner that still holds its loaded index and is the first corner loaded with it holds n, where the n-th written entry is the one it was loaded with |
| ObjWriter.Header | PyriteLib/Obj.cs:330-340 | the header is the comment line, then mtllib with the override if there is one, else with the loaded material if there is one, else nothing |
| ObjWriter.VertexKeys | PyriteLib/Obj.cs:348 | a vertex's key is its index |
| ObjWriter.UvKeys | PyriteLib/Obj.cs:361 | a UV's key is its index |
| ObjWriter.VertexLines | PyriteLib/Obj.cs:346-353 | one vertex line per required vertex, in the order they are numbered |
| ObjWriter.UvLines | PyriteLib/Obj.cs:359-366 | one UV line per required UV, in the order they are numbered |
| ObjWriter.FaceLines | PyriteLib/Obj.cs:369 | one face line per chunk face, in chunk order |
| ObjWriter.RenumberAll | PyriteLib/Obj.cs:342-366 | the vertex pass then the UV pass; when both succeed the face count is kept and every face stays well formed |
| ObjWriter.RenumberAllSucceeds | PyriteLib/Obj.cs:342-366 | both passes succeed exactly when every required vertex and UV index names an entry of its list |
| ObjWriter.RequiredIn | PyriteLib/Obj.cs:321-322 | required indices are in range when every chunk face's indices are |
| ObjWriter.RequiredFacts | PyriteLib/Obj.cs:321-322 | the required indices have no repeats, are in range, and include every index of every chunk face |
| ObjWriter.ChannelPass | PyriteLib/Obj.cs:346-366 | for such a corner, a pass changes only its own channel of chunk faces and maps the corner to the position of its loaded entry among the written ones |
| ObjWriter.BothPasses | PyriteLib/Obj.cs:342-366 | for a corner as loaded in both channels, after the vertex and the UV pass its two new indices point at the written lines of its loaded vertex and UV |
| ObjWriter.RenumberAllDense | PyriteLib/Obj.cs:342-366 | the same, for the required lists the writer computes |
| ObjWriter.LinesPickOut | PyriteLib/Obj.cs:330-369 | the output has the header, the vertex lines, the UV lines and the face lines in that order, and each face line's indices pick out its loaded vertex and UV lines |
| ObjWriter.WriteObjFaithful | PyriteLib/Obj.cs:315-371 | for every chunk-face corner still as loaded and first loaded with its vertex and its UV, the face line's indices select, among the written lines, exactly the vertex and UV lines it was loaded with |
| ObjWriter.BothPassesMiss | PyriteLib/Obj.cs:342-366 | after both passes, a corner the updates miss in a channel keeps in that channel the index it held |
| ObjWriter.RenumberAllMisses | PyriteLib/Obj.cs:342-366 | the same, for the required lists the writer computes |
| ObjWriter.WriteObjMisses | PyriteLib/Obj.cs:315-371 | the writer succeeds, and a chunk-face corner that is not first loaded with its index, or whose loaded index the chunk no longer uses, is written with the index it holds, whatever line that number names |
| ObjWriter.CroppedFaceDangles | PyriteLib/Obj.cs:315-371 | a face loaded as vertices [1,2,3] and cropped to [1,4,5] is written with three vertex lines but keeps the numbers 4 and 5, which name no written vertex |
| ObjWriter.RepeatedUvMisnumbered | PyriteLib/Obj.cs:315-371 | a face with UVs [2,3,2] is written with the UV lines of 2 and 3, and its last corner keeps the number 2, which names the line of UV 3 |
| Ebo.Corners | PyriteLib/Obj.cs:380-440 | three corners per chunk face, each the position and UV of that corner |
| Ebo.FirstFaceWith | PyriteLib/Obj.cs:388 | the first earlier face holding the vertex, or none when no earlier face holds it |
| Ebo.FirstFaceWithBoth | PyriteLib/Obj.cs:392 | the first earlier face holding the vertex and, anywhere, the UV, or none when no earlier face holds both |
| Ebo.EncodeAsWritten | PyriteLib/Obj.cs:378-442 | the stream as written: the face count cast to 16 bits, three records per face, the end marker |
| Ebo.FirstSlotWith | PyriteLib/Obj.cs:390-408 | the earlier corner found has the same vertex and the same UV at the same corner |
| Ebo.FirstSlotWithVertex | PyriteLib/Obj.cs:388-402 | the earlier corner found has the same vertex, and none is found only when no earlier corner has it |
| Ebo.CornerRecords | PyriteLib/Obj.cs:380-441 | three corner records per face, in order |
| Ebo.Encode | PyriteLib/Obj.cs:378-442 | the corrected stream: the face count cast to 16 bits, three records per face, the end marker |
| Ebo.DecodeFrom | PyriteLib/Obj.cs:378-442 | a reader gets every corner back from records that each read back |
| Ebo.DecodeReads | PyriteLib/Obj.cs:378-442 | whatever a reader gets back extends what it had read, one corner per record |
| Ebo.CornerRecordDecodes | PyriteLib/Obj.cs:386-439 | each corrected record, read after the corners before it, gives back its own corner's position and UV |
| Ebo.EncodeDecode | PyriteLib/Obj.cs:378-442 | reading the corrected stream gives back the 16-bit face count and every corner of every face, position and UV |
| Ebo.FullOnlyFirst | PyriteLib/Obj.cs:390-439 | a vertex is written in full exactly for the first corner that uses it |
| Ebo.AsWrittenLosesUv | PyriteLib/Obj.cs:392-407 | for two triangles sharing a vertex, the stream as written back-references without UV a corner whose UV differs, so it does not read back as the chunk |
| Ebo.AsWrittenRefersToVertex | PyriteLib/Obj.cs:394-423 | every back reference as written points at an earlier corner with the same vertex, so only the UV can read back wrong |
| Ebo.FaceRecords | PyriteLib/Obj.cs:380-441 | three records for each chunk face |
| Ebo.CornerRecordsAt | PyriteLib/Obj.cs:380-441 | record 3fi + i of the stream body is the record of corner i of face fi |
| BinPack.OverlapsSymmetric | CuberLib/BinPack/MaxRectsBinPack.cs:434-437 | the separating-axis test of SplitFreeNode does not depend on which rectangle is the used one |
| BinPack.ContainedPreorder | CuberLib/BinPack/MaxRectsBinPack.cs:501-506 | IsContainedIn is reflexive and transitive |
| BinPack.ContainedKeepsDisjoint | CuberLib/BinPack/MaxRectsBinPack.cs:501-506 | a rectangle inside one that misses a used rectangle misses it too |
| BinPack.SplitChildren | CuberLib/BinPack/MaxRectsBinPack.cs:432-480 | at most four pieces are added, and none when the used rectangle misses the free one |
| BinPack.SplitChildrenSound | CuberLib/BinPack/MaxRectsBinPack.cs:439-477 | every piece added lies inside the free rectangle and clear of the used one |
| BinPack.SplitChildrenCover | CuberLib/BinPack/MaxRectsBinPack.cs:439-477 | every cell of the free rectangle outside the used one lies in some piece, so no free space is lost |
| BinPack.KeptMembers | CuberLib/BinPack/MaxRectsBinPack.cs:74-83 | the free rectangles the split loop keeps are exactly those the node misses |
| BinPack.PiecesSound | CuberLib/BinPack/MaxRectsBinPack.cs:74-83 | every piece the split loop adds lies in a free rectangle and misses the node |
| BinPack.SplitKeepsPacking | CuberLib/BinPack/MaxRectsBinPack.cs:125-141 | placing a node inside a free rectangle and splitting keeps used rectangles in the bin, pairwise disjoint, and disjoint from every free rectangle |
| BinPack.Choose | CuberLib/BinPack/MaxRectsBinPack.cs:102-115 | the scan picks the first candidate that no other beats strictly, or none when nothing beats the initial scores |
| BinPack.ChoiceUnique | CuberLib/BinPack/MaxRectsBinPack.cs:102-115 | the best-candidate choice is determined: two choices for one scan are equal |
| BinPack.CommonIntervalLengthIsOverlap | CuberLib/BinPack/MaxRectsBinPack.cs:368-373 | for intervals given start first it is the length of their intersection, symmetric, and no longer than either interval |
| BinPack.UsedContactBounds | CuberLib/BinPack/MaxRectsBinPack.cs:383-389 | the contact with one used rectangle is between zero and the candidate's width plus height |
| BinPack.SumContactsBounds | CuberLib/BinPack/MaxRectsBinPack.cs:383-389 | the contact score over the used rectangles is non-negative and grows by at most width plus height per rectangle |
| BinPack.CandidatesFit | CuberLib/BinPack/MaxRectsBinPack.cs:180-430 | every candidate the heuristics consider has the requested size, or the turned size when rotations are allowed, sits at the corner of a free rectangle and fits in it |
| BinPack.ChosenStep | CuberLib/BinPack/MaxRectsBinPack.cs:180-430 | one more candidate replaces the best so far exactly when its scores are strictly better |
| BinPack.FindPositionFits | CuberLib/BinPack/MaxRectsBinPack.cs:180-430 | a found position has the requested (or turned) size inside a free rectangle, and no candidate scores strictly better |
| BinPack.ScoreOf | CuberLib/BinPack/MaxRectsBinPack.cs:143-168 | a rectangle that cannot be placed scores int.MaxValue twice; otherwise the position is that of the heuristic |
| BinPack.ScoreOfFits | CuberLib/BinPack/MaxRectsBinPack.cs:106-113 | a placement the list insert can choose is a real position inside a free rectangle |
| BinPack.PruneKeepsPacking | CuberLib/BinPack/MaxRectsBinPack.cs:482-499 | pruning only drops free rectangles, so it keeps the packing invariant |
| BinPack.PruneOfTransitive | CuberLib/BinPack/MaxRectsBinPack.cs:482-499 | successive pruning steps compose: every dropped rectangle stays covered by a kept one |
| BinPack.RemoveContainedPrunes | CuberLib/BinPack/MaxRectsBinPack.cs:487-497 | removing a free rectangle contained in another that stays loses no free space |
| BinPack.PairsApartPruned | CuberLib/BinPack/MaxRectsBinPack.cs:484-498 | when the nested loop ends no free rectangle lies inside another |
| BinPack.SplitStep | CuberLib/BinPack/MaxRectsBinPack.cs:127-136 | one turn of the split loop, with its step back after RemoveAt, advances the free list to the next prefix of the split |
| BinPack.RemoveAt | CuberLib/BinPack/MaxRectsBinPack.cs:79 | List.RemoveAt shifts the later elements down by one and keeps the earlier ones |
| BinPack.RemoveAtMultiset | CuberLib/BinPack/MaxRectsBinPack.cs:79 | RemoveAt drops exactly one occurrence of the removed rectangle |
| BinPack.PlaceKeepsPacking | CuberLib/BinPack/MaxRectsBinPack.cs:125-141 | split, prune and record keep the packing invariant for a node inside a free rectangle |
| BinPack.ChooseSnoc | CuberLib/BinPack/MaxRectsBinPack.cs:108-114 | one turn of the scan replaces the best index exactly on a strict improvement |
| BinPack.MaxRectanglesBinPack.constructor | CuberLib/BinPack/MaxRectsBinPack.cs:34-55 | a new bin has no used rectangles and one free rectangle, the whole bin |
| BinPack.MaxRectanglesBinPack.Init | CuberLib/BinPack/MaxRectsBinPack.cs:39-55 | reinitialising empties the bin and keeps the packing invariant |
| BinPack.MaxRectanglesBinPack.ContactPointScoreNode | CuberLib/BinPack/MaxRectsBinPack.cs:375-392 | the loop computes the border contact plus the contact with every used rectangle |
| BinPack.MaxRectanglesBinPack.FindPositionForNewNode | CuberLib/BinPack/MaxRectsBinPack.cs:180-430 | the five position loops compute the scan's best candidate over all free rectangles, upright and turned |
| BinPack.MaxRectanglesBinPack.ScoreRectangle | CuberLib/BinPack/MaxRectsBinPack.cs:143-168 | returns the heuristic's position and scores, contact negated, int.MaxValue twice when nothing fits |
| BinPack.MaxRectanglesBinPack.SplitFreeNode | CuberLib/BinPack/MaxRectsBinPack.cs:432-480 | reports a split exactly when the rectangles overlap, and appends the pieces to the free list |
| BinPack.MaxRectanglesBinPack.SplitFreeRectangles | CuberLib/BinPack/MaxRectsBinPack.cs:127-136 | the split loop replaces every overlapped free rectangle by its pieces |
| BinPack.MaxRectanglesBinPack.PlaceRectangle | CuberLib/BinPack/MaxRectsBinPack.cs:125-141 | records the node as used, leaves a pruned split free list, and keeps the packing invariant for a node inside a free rectangle |
| BinPack.MaxRectanglesBinPack.Insert | CuberLib/BinPack/MaxRectsBinPack.cs:57-89 | returns the heuristic's position; a zero-height result changes nothing, otherwise the node has the requested or turned size, is recorded as used, and the packing invariant holds |
| BinPack.MaxRectanglesBinPack.PickRectangle | CuberLib/BinPack/MaxRectsBinPack.cs:97-118 | the inner loop returns -1 exactly when no rectangle scores below int.MaxValue, else the index the scan chooses and its position |
| BinPack.MaxRectanglesBinPack.InsertList | CuberLib/BinPack/MaxRectsBinPack.cs:91-123 | places rectangles until none fits, keeping the packing invariant; dst stays empty |
| BinPack.MaxRectanglesBinPack.InsertListReporting | CuberLib/BinPack/MaxRectsBinPack.cs:91-123 | the list insert with every placed rectangle reported in dst, in placement order |
| BinPack.MaxRectanglesBinPack.PickedFits | CuberLib/BinPack/MaxRectsBinPack.cs:117-120 | the picked rectangle has a real position inside a free rectangle |
| BinPack.MaxRectanglesBinPack.PruneFreeList | CuberLib/BinPack/MaxRectsBinPack.cs:482-499 | the result loses no free space and no free rectangle lies inside another |
| BinPack.MaxRectanglesBinPack.RemoveContained | CuberLib/BinPack/MaxRectsBinPack.cs:487-497 | removing a contained rectangle loses no free space |
| BinPack.MaxRectanglesBinPack.ScanRectangle | CuberLib/BinPack/MaxRectsBinPack.cs:102-114 | one turn of the scan keeps the best index and scores those of the choice over the rectangles seen so far, with the best index's node |
| BinPack.MaxRectanglesBinPack.PlaceBest | CuberLib/BinPack/MaxRectsBinPack.cs:97-121 | one pass of the list insert returns -1 and changes nothing exactly when no rectangle can be placed; otherwise it places the node of the rectangle the scan chooses and appends it to the used rectangles, keeping the packing invariant |
| BinPack.MaxRectanglesBinPack.PruneAgainst | CuberLib/BinPack/MaxRectsBinPack.cs:484-498 | the inner loop only drops free rectangles covered by kept ones; when it does not remove rectangle i, no rectangle after i lies inside another of the pair |
| Faces.ParseCorner | CuberLib/Types/Face.cs:38-50 | a corner's vertex index is the integer before the first `/`; without a `/` the UV index stays 0 |
| Faces.ParseCorners | CuberLib/Types/Face.cs:36-51 | a successful parse has one vertex and one UV index per token |
| Faces.ParseCornersSpec | CuberLib/Types/Face.cs:36-51 | the corners parse exactly when every token parses |
| Faces.ParseCornersValues | CuberLib/Types/Face.cs:36-51 | a successful parse holds, at each position, the vertex and UV index of that token |
| Faces.ParseCornersFailure | CuberLib/Types/Face.cs:36-51 | a failed parse has a token that fails on its own |
| Faces.ParseCornersExtend | CuberLib/Types/Face.cs:36-51 | one more turn of the corner loop extends both lists or fails with that corner |
| Faces.ParseFace | CuberLib/Types/Face.cs:20-56 | a loaded face has one corner per token after the prefix and its originals equal its current lists |
| Faces.ParseFaceAccepts | CuberLib/Types/Face.cs:22-48 | a face line is accepted exactly when it has at least four tokens, the prefix `f` in any case, and every further token is a corner |
| Faces.FirstIndex | CuberLib/Types/Face.cs:71-78 | the first position holding the index, or none when it is absent |
| Faces.UpdateFirst | CuberLib/Types/Face.cs:69-91 | only the first position whose original index matches takes the new index; the list is unchanged when none matches |
| Faces.UpdateVertexOverwrites | CuberLib/Types/Face.cs:69-79 | updating the same original index twice is the same as updating it once with the last value |
| Faces.RevertUndoesUpdates | CuberLib/Types/Face.cs:69-97 | any run of index updates is undone by RevertVertices, since the originals are never touched |
| Faces.RevertRestoresLoaded | CuberLib/Types/Face.cs:20-97 | reverting a loaded face restores the lists it was loaded with, and reverting is idempotent |
| Faces.AnyInExtent | CuberLib/Types/Face.cs:58-67 | the scan answers true exactly when it reaches a vertex in the extent with every earlier index naming a vertex outside it, false exactly when every index names a vertex outside it, and fails exactly when it reaches an index that names no vertex first |
| Faces.ScanStep | CuberLib/Types/Face.cs:60-64 | past a first corner naming a vertex outside the extent, the scan of the face hits, misses or fails exactly as the scan of the remaining corners does |
| Faces.ScanShift | CuberLib/Types/Face.cs:60-64 | past such a corner, every prefix of the face misses exactly when the one-shorter prefix of the remaining corners misses |
| Faces.ScanInRange | CuberLib/Types/Face.cs:58-67 | when every index names a vertex the scan cannot fail and answers true exactly when one of the vertices is in the extent |
| Faces.FaceInExtent | CuberLib/Types/Face.cs:58-67 | a face whose indices all name vertices is in the extent exactly when one of its vertices is |
| Faces.CornerRoundTrip | CuberLib/Types/Face.cs:108 | a written corner `v/vt` parses back to the same two indices and holds no space |
| Faces.FaceToStringRoundTrip | CuberLib/Types/Face.cs:101-112 | a face written by ToString and read back is the face loaded from its current lists |
| Faces.Face.constructor | CuberLib/Types/Face.cs:9-18 | a new face has empty index lists |
| Faces.Face.ReadCorners | CuberLib/Types/Face.cs:28-51 | the loop fills fresh arrays with the parsed corners, and succeeds exactly when every corner parses |
| Faces.Face.LoadFromStringArray | CuberLib/Types/Face.cs:20-56 | succeeds exactly when the line is a face, and then the face holds the parsed lists and their originals |
| Faces.Face.UpdateVertexIndex | CuberLib/Types/Face.cs:69-79 | the first position whose original vertex index matches takes the new index; nothing else changes |
| Faces.Face.UpdateTextureVertexIndex | CuberLib/Types/Face.cs:81-91 | the same on the UV index lists |
| Faces.Face.RevertVertices | CuberLib/Types/Face.cs:93-97 | the current lists become the originals again |
| Faces.Face.CopyOf | CuberLib/Types/Face.cs:53-54 | the copy is a new array with the same elements |
| Uvs.ParseUv | PyriteLib/Types/TextureVertex.cs:28-48 | a `vt` line is accepted exactly when it has at least three tokens, the prefix `vt` in any case and two decimals (an optional sign, digits with at most one point, and an optional exponent `e`/`E` with a signed integer), which become both the current and the original coordinates |
| Uvs.TransformUvFormula | PyriteLib/Types/TextureVertex.cs:55-66 | a first transform scales about (Left, Top), shifts by (-OffsetX, +OffsetY), sets Transformed and keeps the originals and the index |
| Uvs.TransformUvOnce | PyriteLib/Types/TextureVertex.cs:57 | a second transform, even by another rectangle, changes nothing |
| Uvs.TransformKeepsMembership | PyriteLib/Types/TextureVertex.cs:50-53 | membership in a rectangle is judged on the originals, so transforming does not change it |
| Uvs.Clone | PyriteLib/Types/TextureVertex.cs:78-86 | the appended copy carries the original coordinates as current and original, untransformed, with the given index |
| Uvs.CloneOriginalInto | PyriteLib/Types/TextureVertex.cs:73-90 | the list grows by the clone at its end, and the returned index is the new count |
| Uvs.CloneTransformsLikeOriginal | PyriteLib/Types/TextureVertex.cs:55-90 | a clone of a transformed vertex transforms from the original coordinates, as the vertex did |
| Uvs.NearProperties | PyriteLib/Types/TextureVertex.cs:92-97 | a vertex is near its current and its original point, and near means within 0.00001 on both axes of one of them |
| Uvs.UvToStringTokens | PyriteLib/Types/TextureVertex.cs:68-71 | the written line splits back into `vt` and the two formatted coordinates |
| Uvs.TextureVertex.constructor | PyriteLib/Types/TextureVertex.cs:11-26 | a new vertex is all zero, untransformed |
| Uvs.TextureVertex.LoadFromStringArray | PyriteLib/Types/TextureVertex.cs:28-48 | succeeds exactly when the line parses, then sets current and original coordinates; a failure assigns nothing |
| Uvs.TextureVertex.Transform | PyriteLib/Types/TextureVertex.cs:55-66 | the new state is the transform of the old one, or the old one when already transformed |
| Uvs.TextureVertex.CloneOriginal | PyriteLib/Types/TextureVertex.cs:73-90 | appends the clone to the shared list and returns its 1-based index |
| CuberUvs.ParseCuberUv | CuberLib/Types/TextureVertex.cs:21-41 | a `vt` line is accepted exactly when it has at least three tokens, the prefix `vt` in any case and two decimals (an optional sign, digits with at most one point, and an optional exponent `e`/`E` with a signed integer) |
| CuberUvs.CuberTransformIsShift | CuberLib/Types/TextureVertex.cs:48-52 | the double flip cancels: the transform shifts by (OffsetX, -OffsetY) |
| CuberUvs.RepeatShifts | CuberLib/Types/TextureVertex.cs:48-52 | with no guard, n transforms shift n times |
| CuberUvs.CuberTextureVertex.constructor | CuberLib/Types/TextureVertex.cs:10-19 | a new vertex is all zero |
| CuberUvs.CuberTextureVertex.LoadFromStringArray | CuberLib/Types/TextureVertex.cs:21-41 | succeeds exactly when the line parses, then sets the coordinates; a failure assigns nothing |
| CuberUvs.CuberTextureVertex.Transform | CuberLib/Types/TextureVertex.cs:48-52 | the new state is the shifted old one, on every call |
| RectTransforms.RoundHalfEven | CuberLib/RectangleTransform.cs:29-32 | Math.Round rounds to an integer at most half a unit away |
| RectTransforms.RoundHalfEvenMonotone | CuberLib/RectangleTransform.cs:29-32 | Math.Round never reverses an order |
| RectTransforms.RoundHalfEvenOfInt | CuberLib/RectangleTransform.cs:29-32 | Math.Round leaves an integer as it is |
| RectTransforms.Round6Close | CuberLib/RectangleTransform.cs:15 | rounding to PRECISION = 6 decimals moves a value by at most half a unit in the sixth decimal |
| RectTransforms.Round6Monotone | CuberLib/RectangleTransform.cs:29-32 | rounding to six decimals keeps order |
| RectTransforms.Round6Idempotent | CuberLib/RectangleTransform.cs:29-32 | rounding a rounded value changes nothing |
| RectTransforms.ContainsPointComplete | CuberLib/RectangleTransform.cs:26-34 | every point of the closed rectangle [Left, Right] x [Bottom, Top] is contained |
| RectTransforms.ContainsPointSound | CuberLib/RectangleTransform.cs:26-34 | a contained point lies within 0.000001 of the rectangle on each axis |
| RectTransforms.ContainsPointRounded | CuberLib/RectangleTransform.cs:26-34 | points that agree to six decimals get the same answer |
| RectTransforms.CrossedBoundsContainNothing | CuberLib/RectangleTransform.cs:26-34 | a transform whose rounded bounds are crossed contains no point |
| RectTransforms.CrossedBoundsMayContain | CuberLib/RectangleTransform.cs:26-34 | bounds crossed below the sixth decimal still contain a point |
| RectTransforms.ToRectangleHeightSign | CuberLib/RectangleTransform.cs:36-39 | the pixel height (Bottom - Top) is not positive when Top > Bottom, and negative once the gap spans a pixel |
| RectTransforms.ToRectangleWidth | CuberLib/RectangleTransform.cs:36-39 | the pixel width is the truncated product of (Right - Left) and the texture width |
| UvTransforms.FirstContaining | PyriteLib/Obj.cs:120-124 | the chosen transform is one of the extent's that holds the UV's original point; none is chosen only when none holds it |
| UvTransforms.FirstContainingIsFirst | PyriteLib/Obj.cs:120-124 | the chosen transform is the first in the extent's list that holds the original point: no earlier one holds it |
| UvTransforms.VisitEffect | PyriteLib/Obj.cs:118-150 | with no transform holding its original point a UV's visit changes nothing; an untransformed UV is moved in place by the first such transform; a moved UV stays, a clone of its original point moved by that transform is appended, and the first corner loaded with the UV in each selected face using it is pointed at the clone |
| UvTransforms.VisitClone | PyriteLib/Obj.cs:126-137 | the clone case: the list grows by one moved clone with the next index and the faces are retargeted from the UV to the clone |
| UvTransforms.CloneMovedBy | PyriteLib/Obj.cs:128-129 | a clone moved by a transform is its original point moved by it, keeps the original point and has the index given |
| UvTransforms.RetargetFirstLoaded | CuberLib/Types/Face.cs:81-91 | retargeting changes exactly the first corner loaded with the old UV in each selected face using it, to the clone |
| UvTransforms.MoveKeeps | PyriteLib/Obj.cs:141-144 | moving an untransformed UV in place keeps every UV explained by a transform and every face on its loaded point |
| UvTransforms.CloneExplained | PyriteLib/Obj.cs:126-130 | the clone of an already moved UV, moved by the new transform, is appended with the next index and is explained |
| UvTransforms.RetargetCorner | PyriteLib/Obj.cs:133-137 | retargeting leaves a corner as it was, or points it at the clone where its loaded UV was the old one |
| UvTransforms.RetargetIsRetargeted | PyriteLib/Obj.cs:133-137 | retargeting the faces of the extent yields well formed faces with only such corners changed |
| UvTransforms.RetargetKeepsPoints | PyriteLib/Obj.cs:126-137 | pointing corners at a clone of their UV keeps every corner on the point it was loaded with |
| UvTransforms.VisitKeeps | PyriteLib/Obj.cs:118-150 | one UV's visit keeps the invariant (every moved UV moved by a transform holding its original point, every corner on its loaded point), only grows the UV list and keeps the faces' shape; what the visit does is `VisitEffect` |
| UvTransforms.VisitAll | PyriteLib/Obj.cs:118-150 | visiting the UVs in order only grows the UV list and keeps every face well formed |
| UvTransforms.VisitAllKeeps | PyriteLib/Obj.cs:118-150 | the visits of an extent keep that invariant; what they do to each UV and corner is `VisitAllUv`, `VisitAllCorner` and `VisitAllRetargets` |
| UvTransforms.VisitAllOutside | PyriteLib/Obj.cs:133 | faces outside the extent are never changed |
| UvTransforms.VisitAllUv | PyriteLib/Obj.cs:116-150 | a UV the extent's faces do not use is left as it was; each used UV is visited as `VisitEffect` says, its clone appended somewhere after the loaded list |
| UvTransforms.VisitAllCorner | PyriteLib/Obj.cs:118-150 | every face corner keeps its UV, or is a selected, first-loaded corner of a moved UV, now pointing at a clone beyond the loaded list moved by the first transform holding that UV's original point |
| UvTransforms.VisitAllRetargets | PyriteLib/Obj.cs:126-137 | such a corner that still names its loaded UV, a moved one the visits reach, is pointed elsewhere |
| UvTransforms.VisitAllShape | PyriteLib/Obj.cs:118-150 | the visits change only current UV indices of the faces |
| UvTransforms.FacesIn | PyriteLib/Obj.cs:115 | the query fails exactly when the scan of some face fails; otherwise the selected faces are exactly those with a vertex in the extent, in list order |
| UvTransforms.FacesInStep | PyriteLib/Obj.cs:115 | adding the next face to the selection exactly when its scan finds a vertex in the extent keeps the selection exact |
| UvTransforms.RequiredUse | PyriteLib/Obj.cs:115-117 | a UV index is among those the pass visits exactly when some face with a vertex in the extent uses it |
| UvTransforms.RequiredFromFaces | PyriteLib/Obj.cs:116-117 | the UV indices visited name UVs of the list when every face's do |
| UvTransforms.TransformExtent | PyriteLib/Obj.cs:113-150 | an extent's pass fails when the scan of some face reaches a missing vertex before a vertex in the extent, succeeds when no scan fails and every UV index names a UV, and then grows the UV list and keeps the faces |
| UvTransforms.TransformAll | PyriteLib/Obj.cs:109-161 | the whole pass, extent by extent, only grows the UV list and keeps the faces |
| UvTransforms.TransformExtentKeeps | PyriteLib/Obj.cs:113-150 | an extent's pass keeps the invariant and leaves the faces outside the extent alone; what it does to each UV and corner is `TransformExtentUv` and `TransformExtentCorner` |
| UvTransforms.TransformExtentUv | PyriteLib/Obj.cs:113-150 | after an extent's pass, a UV no face with a vertex in the extent uses is unchanged and a used one is visited as `VisitEffect` says |
| UvTransforms.TransformExtentCorner | PyriteLib/Obj.cs:113-150 | after an extent's pass, each corner keeps its UV or points at a moved clone of its loaded UV's point, and a corner that may be retargeted and still names its loaded UV is pointed at one |
| UvTransforms.TransformAllKeeps | PyriteLib/Obj.cs:109-161 | after the pass every moved UV was moved by a transform holding its original point, and every face corner names a UV for its loaded point; the pass is extent by extent, and what each extent does is `TransformExtentUv` and `TransformExtentCorner` |
| UvTransforms.VisitAllIndexed | PyriteLib/Obj.cs:129 | every UV's index stays equal to its 1-based position, since a clone gets the next index |
| UvTransforms.TransformExtentIndexed | PyriteLib/Obj.cs:113-150 | an extent's pass keeps every UV's index equal to its position |
| UvTransforms.TransformAllIndexed | PyriteLib/Obj.cs:109-161 | the whole pass keeps every UV's index equal to its position |
| UvTransforms.LoadedInv | PyriteLib/Obj.cs:109-161 | a freshly loaded mesh meets the invariant for any transforms |
| Spatial.EnumerateSpace | PyriteLib/SpatialUtilities.cs:19-31 | the triple loop makes the calls of the grid enumeration, in order |
| Spatial.EnumerateSpaceOf | PyriteLib/SpatialUtilities.cs:33-45 | the loop over a size's components makes the same calls |
| Spatial.Grid3Members | PyriteLib/SpatialUtilities.cs:19-31 | every cell of [0,X)x[0,Y)x[0,Z) is visited, nothing else is, in strictly increasing order, so each exactly once |
| Spatial.EnumerateSpace2 | PyriteLib/SpatialUtilities.cs:53-62 | the double loop makes the calls of the 2-D enumeration, in order |
| Spatial.Grid2Members | PyriteLib/SpatialUtilities.cs:53-62 | every cell of [0,X)x[0,Y) is visited exactly once, in increasing order |
| Spatial.GetIntersection | PyriteLib/SpatialUtilities.cs:75-83 | no hit exactly when the two distances have the same sign or one is zero |
| Spatial.CrossingInsideSegment | PyriteLib/SpatialUtilities.cs:79-81 | opposite signs put the crossing parameter strictly between 0 and 1 |
| Spatial.IntersectionOnSegment | PyriteLib/SpatialUtilities.cs:75-83 | a hit lies strictly between the two end points of the segment |
| Spatial.IntersectionOnPlaneX | PyriteLib/SpatialUtilities.cs:111 | with distances to an X plane, the hit lies on that plane |
| Spatial.IntersectionOnPlaneY | PyriteLib/SpatialUtilities.cs:112 | with distances to a Y plane, the hit lies on that plane |
| Spatial.IntersectionOnPlaneZ | PyriteLib/SpatialUtilities.cs:113 | with distances to a Z plane, the hit lies on that plane |
| Spatial.CheckLineBox | PyriteLib/SpatialUtilities.cs:94-120 | a segment wholly beyond one side of the box gives null; a first end point strictly inside is returned |
| Spatial.CheckLineBoxLeaves | PyriteLib/SpatialUtilities.cs:109-117 | any other result lies on a face of the box, strictly between the end points |
| Spatial.CheckLineBoxSound | PyriteLib/SpatialUtilities.cs:94-120 | every result is the first end point or a point of the segment on a face of the box |
| Spatial.CheckLineBoxPrefersMinX | PyriteLib/SpatialUtilities.cs:111-116 | the planes are tried min-X first: a hit inside the min-X face is the one returned |
| Spatial.PointAtSide | PyriteLib/SpatialUtilities.cs:96-101 | a point strictly between two end points that are both beyond a plane on the same side is beyond it too |
| Spatial.FacePointNotOutside | PyriteLib/SpatialUtilities.cs:96-101 | on a box whose first corner is its least, a segment with a point strictly inside it on a face passes all six early exits |
| Spatial.CrossingAt | PyriteLib/SpatialUtilities.cs:75-83 | a segment that reaches a plane strictly between its end points, not lying in the plane, has distances of opposite signs, and the crossing parameter is that point's |
| Spatial.FaceHitAt | PyriteLib/SpatialUtilities.cs:75-91 | such a crossing, inside the face, is the hit that the intersection and the in-box test report |
| Spatial.CheckLineBoxTriedAll | PyriteLib/SpatialUtilities.cs:94-120 | a null result past the early exits means the first end point is not strictly inside and all six face tests failed |
| Spatial.FaceMissedInPlane | PyriteLib/SpatialUtilities.cs:109-117 | a face whose test failed is reached strictly inside the segment, inside the face, only when both end points lie in its plane |
| Spatial.AxisMissedInPlane | PyriteLib/SpatialUtilities.cs:109-117 | the same for the two faces across one axis, both of whose tests failed |
| Spatial.CheckLineBoxComplete | PyriteLib/SpatialUtilities.cs:94-120 | a null result on a box whose first corner is its least misses nothing but segments lying in a face's plane: if a point strictly inside the segment lies on a face, both end points lie in that face's plane |
| Text.Split | CuberLib/Types/Face.cs:38 | String.Split gives at least one piece and no piece holds the separator |
| Text.SplitJoin | CuberLib/Types/Face.cs:38 | joining the pieces with the separator gives the string back |
| Text.JoinSplit | CuberLib/Types/Face.cs:38 | splitting pieces joined by a separator they do not hold gives the pieces back |
| Text.Tokens | PyriteLib/Obj.cs:494 | splitting on spaces with empty entries removed gives non-empty tokens without spaces |
| Text.TokensOfJoin | PyriteLib/Obj.cs:494 | a line written as tokens separated by single spaces tokenises back to the tokens |
| Text.ParseInt | CuberLib/Types/Face.cs:41 | int.TryParse accepts an optional sign and digits, and only values that fit in 32 bits |
| Text.ParseIntToString | CuberLib/Types/Face.cs:41 | formatting then parsing a 32-bit integer gives it back |
| Text.ParseSigned | CuberLib/Types/Face.cs:41 | a signed integer parses exactly when, past an optional sign, there is at least one digit and nothing else |
| Text.ParseSignedIntToString | PyriteLib/Types/TextureVertex.cs:40-43 | a formatted integer reads back as itself, as an exponent |
| Text.ParseMantissaDigits | PyriteLib/Types/TextureVertex.cs:40-43 | a string of digits reads as a decimal worth their value |
| Text.ParseDecimalExponent | PyriteLib/Types/TextureVertex.cs:40-43 | digits, `e` or `E`, then a signed integer k read as the digits' value times ten to the k, as double.TryParse reads scientific notation |
| Text.ParseDecimalIntExponent | PyriteLib/Types/TextureVertex.cs:40-43 | digits, `e` or `E` and a formatted integer k read as the digits' value times ten to the k |
| Text.ParseDecimalSample | PyriteLib/Types/TextureVertex.cs:40-43 | "1E-05", the form a small coordinate is printed in, reads as 0.00001 |
| Text.Lower | CuberLib/Types/Face.cs:25 | ToLower keeps the length |
| Vertices.ParseVertex | PyriteLib/Obj.cs:501-506 | a `v` line is accepted exactly when it has at least four tokens, the prefix `v` in any case and three decimals in the same notation, which become the position |
| Wizard.SizesAreCandidates | PyriteLib/Wizard.cs:43-48 | the six grid sizes 4 to 128 divide 128 and are listed ascending |
| Wizard.Ratio | PyriteLib/Wizard.cs:74 | 128 / gridSize is a whole number of fine cells per coarse cell |
| Wizard.Grid3Length | PyriteLib/SpatialUtilities.cs:33-45 | enumerating a g x g x g grid calls the callback g³ times |
| Wizard.FineCellsMembers | PyriteLib/Wizard.cs:76-79 | GetCubeList visits ratio³ fine cells, exactly those of the coarse cell's block |
| Wizard.AxisUnique | PyriteLib/Wizard.cs:76-78 | a fine index lies in a coarse cell's range exactly when that cell is its quotient by the ratio |
| Wizard.Partition | PyriteLib/Wizard.cs:72-80 | the coarse cells' blocks partition the 128³ fine grid: every fine cell lies in exactly one block and every block lies in the grid |
| Wizard.CubeListLength | PyriteLib/Wizard.cs:72-80 | GetCubeList gives one face count per fine cell of the block, ratio³ of them |
| Wizard.MaxOverSpec | PyriteLib/Wizard.cs:59-67 | the running maximum bounds every cell's estimate and is 0 or some cell's estimate |
| Wizard.GetMax | PyriteLib/Wizard.cs:55-70 | the enumeration keeps the largest estimate over the coarse cells |
| Wizard.GetMaxBound | PyriteLib/Wizard.cs:55-70 | no coarse cell's estimate exceeds GetMax, which is some cell's estimate unless it is 0 |
| Wizard.ChooseGrid | PyriteLib/Wizard.cs:50 | the chosen entry comes from the table |
| Wizard.ChooseGridSpec | PyriteLib/Wizard.cs:50 | First fails exactly when no size's maximum is under the limit, and otherwise picks the first such entry |
| Wizard.MaxTable | PyriteLib/Wizard.cs:41-48 | one entry per size, keyed by the size |
| Wizard.ChooseFrom | PyriteLib/Wizard.cs:41-52 | the loop computes each size's maximum and chooses as ChooseGrid does |
| Wizard.MaxVertices | PyriteLib/Wizard.cs:37-53 | the result is the choice over the six sizes and their maxima, failing when none is under maxVertices |
| Wizard.ChooseGridSmallest | PyriteLib/Wizard.cs:50 | with keys ascending the choice has the smallest key whose value is under the limit |
| Wizard.MaxTableSmallest | PyriteLib/Wizard.cs:37-53 | MaxVertices recommends the smallest grid size whose fullest cell is under the limit |
| Wizard.InsertEntry | PyriteLib/Wizard.cs:24 | SortedList.Add of a new key keeps the keys ascending and adds exactly that entry |
| Wizard.KeyObjects | PyriteLib/Wizard.cs:15-26 | keying the objects by vertex count fails exactly when two share a count; otherwise the list is ascending and holds every object under its count |
| Models.ReplaceChar | PyriteCliCommon/Models/WorkEntity.cs:31 | String.Replace of one character keeps the length and changes exactly the occurrences of that character |
| Models.EncodeResultPath | PyriteCliCommon/Models/WorkEntity.cs:29-32 | forward and back slashes become underscores; every other character stays where it was |
| Models.EncodedHasNoSeparator | PyriteCliCommon/Models/WorkEntity.cs:29-32 | no path separator survives in the partition key |
| Models.EncodeIdempotent | PyriteCliCommon/Models/WorkEntity.cs:29-32 | encoding an encoded path changes nothing |
| Models.EncodeCollision | PyriteCliCommon/Models/WorkEntity.cs:29-32 | two paths share a partition key exactly when they differ only where each has `/`, `\` or `_` |
| Models.RowKeyRoundTrip | PyriteCliCommon/Models/WorkEntity.cs:16 | the row key split at `_` parses back to the two tile coordinates |
| Models.RowKeyInjective | PyriteCliCommon/Models/WorkEntity.cs:16 | two tiles share a row key exactly when they are the same tile |
| Models.WorkEntity.constructor | PyriteCliCommon/Models/WorkEntity.cs:13-20 | the partition key is the encoded result path, the row key names the tile, and the time and tile coordinates are kept |

## Left out

- File system and streams: `File.ReadLines`, `CleanOldFiles`, `StreamWriter` and `BinaryWriter` are not modelled. A load takes the file's lines, and a writer returns its lines or records. A write that throws half way leaves a partial file in the source; in the model the write fails with no output.
- Trace output and debug imagery: `Trace.*`, the `options.Debug` markup in `TransformUVs` and the System.Drawing work of `Texture.cs` (`DrawImage`, `Save`, `ResizeImage`, `MarkupTexture*`, `WriteDebugImage`) are not modelled. They only produce logs and pictures.
- Concurrency: `AsParallel`, `Parallel.ForEach` and the `lock` in `CloneOriginal` are modelled as sequential loops in list order. `EnumerateSpaceParallel` is not modelled, because its call order is unspecified. Its set of calls is that of the 2-D `EnumerateSpace`.
- Floating point: doubles and 32-bit floats are modelled as reals.
  - `Math.Round(x, 6)` is round-half-to-even on reals.
  - An `(int)` cast is truncation toward zero.
  - Float rounding error, infinities and NaN are not captured.
  - A grid box with a side of zero length, where the source divides by zero and casts an infinite value, is a failure.
- `Mesh.EncodeChunk`, `Mesh.Obj.WriteEboFormattedFile`: the mesh writes the corrected stream `Ebo.Encode`, not the stream as written in `PyriteLib/Obj.cs:378-442`. That stream is `Ebo.EncodeAsWritten`, and the two differ as the Findings row says.
- `Ebo.Encode`, `Ebo.EncodeAsWritten`: the EBO floats are kept as reals, not as four-byte payloads. The functions require every chunk face to have at least three corners, and the vertex and UV indices of its first three corners to name entries of the lists (`Ebo.Writable`). Only those three corners are written, but the back-reference searches look at every corner of an earlier face, as the source's `Contains` does (`Ebo.FirstFaceWith`, `Ebo.FirstFaceWithBoth`).
- `Mesh.Obj.WriteEboFormattedFile`: fails whenever `Ebo.Writable` fails. For a chunk of triangles that is where the source throws an index exception, though the source has by then written the records of the earlier corners. With faces of four or more corners the source can go on where the model fails: a back reference does not read the vertex list, and a tag-0 one reads neither list. So a corner whose vertex occurs in an earlier face, at any corner of it, is written even when its vertex index is outside the list, and also its UV index when that UV occurs in the same earlier face. For example, with six UVs, face A with vertices 1, 2, 3, 4 and UVs 1, 2, 3, 99 followed by face B with vertices 4, 5, 6 and UVs 99, 5, 6: the source writes B's first corner as tag 0 with index 3, and the model fails.
- Types the source uses but does not define are not part of this model; each is replaced as follows:
  - `Vertex` is taken to parse like `TextureVertex`: at least four tokens, the prefix `v` and three decimals. Its `InExtent` is taken as bounds-inclusive.
  - `PyriteLib.Types.Face` is modelled by `CuberLib/Types/Face.cs`, and the third argument of its updates is ignored.
  - `SharedTextureVertexEqualityComparer` is modelled as "the two faces share at least one UV index" (`Islands.SharesUv`).
  - PyriteLib's `RectangleTransform` is taken to be CuberLib's.
- `WriteObjFaithful`, `RenumberDense`, `ChannelPass`, `BothPasses`, `RenumberAllDense` state the writer's promise only for corners still as loaded and first loaded with their vertex and their UV. The writer's updates are keyed on loaded indices and reach only the first matching corner, as `UpdateVertexIndex` and `UpdateTextureVertexIndex` do (`CuberLib/Types/Face.cs:69-91`). Other corners keep their numbers: a corner moved by cropping or by UV retargeting, and a repeated index after its first corner. `WriteObjMisses`, `CroppedFaceDangles` and `RepeatedUvMisnumbered` state this. PyriteLib's own `Face`, whose three-argument update `Obj.cs:136` and `Obj.cs:276` call, is not part of this model. Its update may behave otherwise.
- `ParseUv`, `LoadFromStringArray`, `ParseCuberUv`, `ParseVertex` read numbers in plain and scientific notation only. `double.TryParse` with `NumberStyles.Any` also takes surrounding white space, thousands separators, currency symbols, parentheses, trailing signs, and `Infinity` and `NaN`. CuberLib's call also uses the current culture. None of these extras is modelled.
- `Faces.Face`: the two-argument `ToString(textureList, vertexList)` overload is not modelled. It formats list entries, not indices, and nothing in the core calls it.
- `MaxRectanglesBinPack.Occupancy` is not modelled: it is a float ratio used only for reporting.
- `BinPack`: scores and areas are unbounded integers. The source's 32-bit products `width * height` could overflow for bins beyond 46340 pixels a side, and that is not modelled.
- `Mesh.Obj.CropCube`: a chunk listing the same face twice makes the source's `Dictionary.Add` throw. Chunks come from matrix cells, which never repeat a face, and the model does not reproduce that exception.
- `Mesh.Obj.CropCube`: a cropped vertex gets no interpolated UV, and a face with one vertex outside the cell is left as it is, exactly as in the source.
- `MeshSpec.OutOfBound`, `Mesh.FindCropped`: the failure text names the exception, not the source's message.
- `UvTransforms.TransformExtent` fails on any UV index of a selected face that the list does not have. The source fails on the first such index it reaches.
- `Atlas.SelectFaces` and `Atlas.GenerateTextureTile` require every vertex index of every face to name a vertex. The texture pass therefore does not model the early exit of `Face.InExtent` there. The UV pass (`Faces.AnyInExtent`, `UvTransforms.FacesIn`) does model it.
- `Base64.Decode` is strict: it accepts only the RFC 4648 alphabet with padding and no whitespace. `Convert.FromBase64String` also skips whitespace.
- `Metadata.DecodeMetadata`, `Metadata.ExistenceBits`, `Metadata.EncodeMetadata`: keys are compared by coordinates. The encoder looks each ordered key's value up by coordinates, so two entries with equal coordinates give the first entry's value twice. The source's `Vector3` does not override `Equals`, so its dictionary compares keys by reference. With distinct key objects the source never reports a duplicate key, but the model does when two keys have equal coordinates. The model's choice is the one the codec's round trip needs.
- `Wizard.GetMax`: the source multiplies the face count by a `float` ratio of faces to vertices. The model computes `faceCount * faces / vertices` exactly, truncated toward zero, which ignores float rounding. A mesh without vertices, where the source's ratio is NaN or infinite, is excluded by the precondition.
- `Wizard.GetMax` and `Wizard.MaxVertices` require the 128 x 128 x 128 face matrix that the wizard's constructor asks `LoadObj` for.
- `Wizard.KeyObjects`: the wizard's constructor loads each file with `LoadObj`, titles it, and traces a recommendation per object. Only the keying of objects by vertex count, and its duplicate-key failure, is modelled.
- `Models.WorkEntity`:
  - the `DateTime` completion time is its tick count;
  - the parameterless constructor and the `TableEntity` base class (timestamps, ETag) are not modelled;
  - `MetadataBase64` is a plain field that the constructor leaves unset.
- `Uvs.UvToStringTokens`, `CuberUvs.CuberUvToString`: the culture-dependent formatting of doubles is a parameter. Only the token structure of the line is proved.

## Findings

| source | as written | input that shows it | evidently intended | confidence | as-written member | corrected member |
|---|---|---|---|---|---|---|
| PyriteLib/Obj.cs:392-407 | tag 0 (a back reference that reuses the earlier corner's UV) is written when some earlier face contains the vertex and contains the UV at any corner, not necessarily at the same corner | two triangles with vertices [1,2,3] / UVs [1,2,3] and vertices [1,4,5] / UVs [2,6,7]: the second face's vertex 1 is written as tag 0 pointing at corner 0, whose UV is 1, not 2 | tag 0 only when the earlier corner with that vertex also has that UV, so that the reader gets every corner's UV back | not executed | Ebo.AsWrittenLosesUv | Ebo.EncodeDecode |
| CuberLib/BinPack/MaxRectsBinPack.cs:91-123 | the list `Insert` clears `dst` and never adds a placed rectangle to it | any list with one rectangle that fits: it is placed, and `dst` stays empty | every placed rectangle is appended to `dst`, in placement order | not executed | BinPack.MaxRectanglesBinPack.InsertList | BinPack.MaxRectanglesBinPack.InsertListReporting |
