/** `Vertex`: a 1-based index and a position. Its class is not part of this
    model; it is taken to parse and test containment as `TextureVertex` and
    `Extent` do. */
module Vertices {
  import opened Wrappers
  import opened Vectors
  import opened Extents
  import Text

  datatype Vertex = Vertex(index: int, x: real, y: real, z: real)

  /** `InExtent`: every coordinate within the box, bounds included. */
  predicate InExtent(v: Vertex, e: Extent)
  {
    e.xMin <= v.x <= e.xMax && e.yMin <= v.y <= e.yMax && e.zMin <= v.z <= e.zMax
  }

  /** `new Vector3D(vertex)`: copies X, Y and Z. */
  function ToVector3D(v: Vertex): (r: Vector3D)
    ensures r.x == v.x && r.y == v.y && r.z == v.z
  {
    Vector3D(v.x, v.y, v.z)
  }

  /** `LoadFromStringArray` for a `v` record: at least four tokens, the prefix
      `v` in any case, and three decimal coordinates. The index is set by the
      loader afterwards. */
  function ParseVertex(data: seq<string>): (r: Result<Vertex>)
    ensures r.Success? <==> (|data| >= 4 && Text.Lower(data[0]) == "v" && Text.ParseDecimal(data[1]).Some?
      && Text.ParseDecimal(data[2]).Some? && Text.ParseDecimal(data[3]).Some?)
    ensures r.Success? ==> r.value == Vertex(0, Text.ParseDecimal(data[1]).value,
      Text.ParseDecimal(data[2]).value, Text.ParseDecimal(data[3]).value)
  {
    if |data| < 4 then Failure("ArgumentException: Input array must be of minimum length 4")
    else if Text.Lower(data[0]) != "v" then Failure("ArgumentException: Data prefix must be 'v'")
    else
      match (Text.ParseDecimal(data[1]), Text.ParseDecimal(data[2]), Text.ParseDecimal(data[3]))
      case (Some(x), Some(y), Some(z)) => Success(Vertex(0, x, y, z))
      case _ => Failure("ArgumentException: Could not parse parameter as double")
  }
}
