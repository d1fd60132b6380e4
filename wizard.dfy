/** `Wizard` of `PyriteLib/Wizard.cs`: recommends a grid size for a mesh
    loaded into a 128 x 128 x 128 face matrix. For each candidate size it
    estimates the vertices of the fullest coarse cell from the faces of the
    fine cells the coarse cell covers, and picks the smallest size whose
    estimate stays under the limit. */
module Wizard {
  import opened Wrappers
  import opened Spatial
  import Mesh
  import Seqs

  /** The sizes `MaxVertices` tries, in key order. */
  function Sizes(): seq<int>
  {
    [4, 8, 16, 32, 64, 128]
  }

  /** A grid size whose cells are whole blocks of the 128-cell fine grid;
      every size of `Sizes()` is one. */
  predicate Candidate(g: int)
  {
    1 <= g <= 128 && 128 % g == 0
  }

  lemma {:induction false} SizesAreCandidates()
    ensures forall i :: 0 <= i < |Sizes()| ==> Candidate(Sizes()[i])
    ensures forall i, j :: 0 <= i < j < |Sizes()| ==> Sizes()[i] < Sizes()[j]
  {
  }

  /** `128 / gridSize`: fine cells per coarse cell along an axis. */
  function Ratio(g: int): (r: int)
    requires Candidate(g)
    ensures r >= 1 && g * r == 128
  {
    128 / g
  }

  /* ---------- counting the enumeration ---------- */

  lemma {:induction false} Row3Length(x: int, y: int, z: int)
    requires z >= 0
    ensures |Row3(x, y, z)| == z
    decreases z
  {
    if z > 0 {
      Row3Length(x, y, z - 1);
    }
  }

  lemma {:induction false} Slice3Length(x: int, y: int, z: int)
    requires y >= 0 && z >= 0
    ensures |Slice3(x, y, z)| == y * z
    decreases y
  {
    if y > 0 {
      Slice3Length(x, y - 1, z);
      Row3Length(x, y - 1, z);
      assert (y - 1) * z + z == y * z;
    }
  }

  /** The triple loop makes exactly `x * y * z` calls. */
  lemma {:induction false} Grid3Length(x: int, y: int, z: int)
    requires x >= 0 && y >= 0 && z >= 0
    ensures |Grid3(x, y, z)| == x * y * z
    decreases x
  {
    if x > 0 {
      Grid3Length(x - 1, y, z);
      Slice3Length(x - 1, y, z);
      assert (x - 1) * y * z + y * z == x * y * z;
    }
  }

  /* ---------- GetCubeList ---------- */

  /** The fine cells of coarse cell `t` for a ratio of `k`, in the order of
      the comprehension: x outermost, z innermost, each over `[t·k, t·k + k)`. */
  function FineCells(k: int, t: Cell3): seq<Cell3>
  {
    var offs := Grid3(k, k, k);
    seq(|offs|, i requires 0 <= i < |offs| => (t.0 * k + offs[i].0, t.1 * k + offs[i].1, t.2 * k + offs[i].2))
  }

  /** `f` lies in the block of coarse cell `t`. */
  predicate InBlock(f: Cell3, k: int, t: Cell3)
  {
    t.0 * k <= f.0 < t.0 * k + k && t.1 * k <= f.1 < t.1 * k + k && t.2 * k <= f.2 < t.2 * k + k
  }

  /** Exactly `k³` cells, and they are exactly the cells of the block. */
  lemma {:induction false} FineCellsMembers(k: int, t: Cell3)
    requires k >= 1
    ensures |FineCells(k, t)| == k * k * k
    ensures forall f :: f in FineCells(k, t) <==> InBlock(f, k, t)
  {
    var offs := Grid3(k, k, k);
    var cells := FineCells(k, t);
    Grid3Length(k, k, k);
    Grid3Members(k, k, k);
    forall f ensures f in cells <==> InBlock(f, k, t) {
      if f in cells {
        var i :| 0 <= i < |cells| && cells[i] == f;
        assert offs[i] in offs;
      }
      if InBlock(f, k, t) {
        var o := (f.0 - t.0 * k, f.1 - t.1 * k, f.2 - t.2 * k);
        assert InGrid3(o, k, k, k);
        var i :| 0 <= i < |offs| && offs[i] == o;
        assert cells[i] == f;
      }
    }
  }

  lemma {:induction false} MulMonotone(a: int, b: int, k: int)
    requires a <= b && k >= 0
    ensures a * k <= b * k
  {
    assert b * k - a * k == (b - a) * k;
  }

  /** Along one axis, a fine index's quotient by the ratio is a coarse index. */
  lemma {:induction false} AxisQuotient(g: int, a: int)
    requires Candidate(g) && 0 <= a < 128
    ensures 0 <= a / Ratio(g) < g
  {
    var k := Ratio(g);
    var q := a / k;
    assert a == q * k + a % k && 0 <= a % k < k;
    if q >= g {
      MulMonotone(g, q, k);
    }
    if q < 0 {
      MulMonotone(q, -1, k);
    }
  }

  /** Along one axis, a fine index lies in coarse cell `t`'s range exactly
      when `t` is its quotient by the ratio. */
  lemma {:induction false} AxisUnique(g: int, a: int, t: int)
    requires Candidate(g) && 0 <= a < 128
    ensures t * Ratio(g) <= a < t * Ratio(g) + Ratio(g) <==> t == a / Ratio(g)
  {
    var k := Ratio(g);
    var q := a / k;
    assert a == q * k + a % k && 0 <= a % k < k;
    if t * k <= a < t * k + k {
      if t < q {
        MulMonotone(t + 1, q, k);
      } else if t > q {
        MulMonotone(q + 1, t, k);
      }
    }
  }

  /** Along one axis, a coarse cell's range stays inside `[0, 128)`. */
  lemma {:induction false} AxisInside(g: int, t: int)
    requires Candidate(g) && 0 <= t < g
    ensures 0 <= t * Ratio(g) && t * Ratio(g) + Ratio(g) <= 128
  {
    MulMonotone(0, t, Ratio(g));
    MulMonotone(t + 1, g, Ratio(g));
  }

  /** The coarse cell holding fine cell `f`. */
  function BlockOf(g: int, f: Cell3): Cell3
    requires Candidate(g)
  {
    (f.0 / Ratio(g), f.1 / Ratio(g), f.2 / Ratio(g))
  }

  /** For every candidate size the coarse cells' blocks partition the fine
      grid: each fine cell lies in the block of exactly one coarse cell, and
      every block lies inside the fine grid. */
  lemma {:induction false} Partition(g: int)
    requires Candidate(g)
    ensures forall f :: InGrid3(f, 128, 128, 128) ==>
      InGrid3(BlockOf(g, f), g, g, g) && f in FineCells(Ratio(g), BlockOf(g, f))
    ensures forall f, t :: InGrid3(f, 128, 128, 128) && f in FineCells(Ratio(g), t) ==> t == BlockOf(g, f)
    ensures forall t, f :: InGrid3(t, g, g, g) && f in FineCells(Ratio(g), t) ==> InGrid3(f, 128, 128, 128)
  {
    forall f | InGrid3(f, 128, 128, 128)
      ensures InGrid3(BlockOf(g, f), g, g, g) && f in FineCells(Ratio(g), BlockOf(g, f))
    {
      var b := BlockOf(g, f);
      AxisQuotient(g, f.0);
      AxisQuotient(g, f.1);
      AxisQuotient(g, f.2);
      AxisUnique(g, f.0, b.0);
      AxisUnique(g, f.1, b.1);
      AxisUnique(g, f.2, b.2);
      FineCellsMembers(Ratio(g), b);
    }
    forall f, t | InGrid3(f, 128, 128, 128) && f in FineCells(Ratio(g), t) ensures t == BlockOf(g, f) {
      FineCellsMembers(Ratio(g), t);
      AxisUnique(g, f.0, t.0);
      AxisUnique(g, f.1, t.1);
      AxisUnique(g, f.2, t.2);
    }
    forall t, f | InGrid3(t, g, g, g) && f in FineCells(Ratio(g), t) ensures InGrid3(f, 128, 128, 128) {
      FineCellsInside(g, t);
      var i :| 0 <= i < |FineCells(Ratio(g), t)| && FineCells(Ratio(g), t)[i] == f;
    }
  }

  /** Every fine cell of a coarse cell lies in the fine grid. */
  lemma {:induction false} FineCellsInside(g: int, t: Cell3)
    requires Candidate(g) && InGrid3(t, g, g, g)
    ensures forall i :: 0 <= i < |FineCells(Ratio(g), t)| ==> InGrid3(FineCells(Ratio(g), t)[i], 128, 128, 128)
  {
    var cells := FineCells(Ratio(g), t);
    FineCellsMembers(Ratio(g), t);
    AxisInside(g, t.0);
    AxisInside(g, t.1);
    AxisInside(g, t.2);
    forall i | 0 <= i < |cells| ensures InGrid3(cells[i], 128, 128, 128) {
      assert cells[i] in cells;
    }
  }

  /** The mesh a wizard measures: a 128³ face matrix and at least one vertex. */
  predicate Measurable(m: array3<seq<nat>>, vertices: nat)
  {
    m.Length0 == 128 && m.Length1 == 128 && m.Length2 == 128 && vertices > 0
  }

  /** A loaded mesh the wizard can measure. */
  predicate MeshMeasurable(obj: Mesh.Obj)
    reads obj
  {
    Measurable(obj.faceMatrix, |obj.vertexList|)
  }

  /** `GetCubeList`: the face count of each fine cell of coarse cell `t`. */
  function CubeList(m: array3<seq<nat>>, g: int, t: Cell3): (r: seq<nat>)
    reads m
    requires m.Length0 == 128 && m.Length1 == 128 && m.Length2 == 128 && Candidate(g) && InGrid3(t, g, g, g)
  {
    FineCellsInside(g, t);
    Counts(m, FineCells(Ratio(g), t))
  }

  /** `GetCubeList` gives one face count per fine cell of the block, ratio³
      of them. */
  lemma {:induction false} CubeListLength(m: array3<seq<nat>>, g: int, t: Cell3)
    requires m.Length0 == 128 && m.Length1 == 128 && m.Length2 == 128 && Candidate(g) && InGrid3(t, g, g, g)
    ensures |CubeList(m, g, t)| == Ratio(g) * Ratio(g) * Ratio(g)
  {
    FineCellsMembers(Ratio(g), t);
  }

  /** The face count of each listed cell of the matrix. */
  function Counts(m: array3<seq<nat>>, cells: seq<Cell3>): (r: seq<nat>)
    reads m
    requires forall i :: 0 <= i < |cells| ==> InGrid3(cells[i], m.Length0, m.Length1, m.Length2)
    ensures |r| == |cells|
  {
    seq(|cells|, i requires 0 <= i < |cells| && InGrid3(cells[i], m.Length0, m.Length1, m.Length2) reads m =>
      |m[cells[i].0, cells[i].1, cells[i].2]|)
  }

  function Sum(s: seq<nat>): nat
  {
    if s == [] then 0 else s[0] + Sum(s[1..])
  }

  /** `(int)(faceCount * ratio)` with `ratio` the number of faces over the
      number of vertices. */
  function Estimate(faceCount: nat, faces: nat, vertices: nat): nat
    requires vertices > 0
  {
    var product: nat := faceCount * faces;
    product / vertices
  }

  /** The vertex estimate of coarse cell `t`. */
  function CellEstimate(m: array3<seq<nat>>, faces: nat, vertices: nat, g: int, t: Cell3): nat
    reads m
    requires Measurable(m, vertices) && Candidate(g) && InGrid3(t, g, g, g)
  {
    Estimate(Sum(CubeList(m, g, t)), faces, vertices)
  }

  predicate AllInGrid(cells: seq<Cell3>, g: int)
  {
    forall i :: 0 <= i < |cells| ==> InGrid3(cells[i], g, g, g)
  }

  /** The running maximum, starting from 0, over the given coarse cells. */
  function MaxOver(m: array3<seq<nat>>, faces: nat, vertices: nat, g: int, cells: seq<Cell3>): nat
    reads m
    requires Measurable(m, vertices) && Candidate(g) && AllInGrid(cells, g)
  {
    if cells == [] then 0
    else
      var best := MaxOver(m, faces, vertices, g, cells[..|cells| - 1]);
      var e := CellEstimate(m, faces, vertices, g, cells[|cells| - 1]);
      if e > best then e else best
  }

  /** The running maximum bounds every estimate and is 0 or attained. */
  lemma {:induction false} MaxOverSpec(m: array3<seq<nat>>, faces: nat, vertices: nat, g: int, cells: seq<Cell3>)
    requires Measurable(m, vertices) && Candidate(g) && AllInGrid(cells, g)
    ensures forall i :: 0 <= i < |cells| ==> CellEstimate(m, faces, vertices, g, cells[i]) <= MaxOver(m, faces, vertices, g, cells)
    ensures MaxOver(m, faces, vertices, g, cells) == 0
      || exists i :: 0 <= i < |cells| && CellEstimate(m, faces, vertices, g, cells[i]) == MaxOver(m, faces, vertices, g, cells)
  {
    if cells != [] {
      var init := cells[..|cells| - 1];
      MaxOverSpec(m, faces, vertices, g, init);
      assert forall i :: 0 <= i < |init| ==> cells[i] == init[i];
    }
  }

  /** One more cell: the running maximum takes its estimate if larger. */
  lemma {:induction false} MaxOverSnoc(m: array3<seq<nat>>, faces: nat, vertices: nat, g: int, cells: seq<Cell3>, i: int)
    requires Measurable(m, vertices) && Candidate(g) && AllInGrid(cells, g) && 0 <= i < |cells|
    ensures AllInGrid(cells[..i], g) && AllInGrid(cells[..i + 1], g)
    ensures var e := CellEstimate(m, faces, vertices, g, cells[i]);
      var best := MaxOver(m, faces, vertices, g, cells[..i]);
      MaxOver(m, faces, vertices, g, cells[..i + 1]) == if e > best then e else best
  {
    assert cells[..i + 1][..i] == cells[..i];
  }

  lemma {:induction false} GridCellsInGrid(g: int)
    ensures AllInGrid(Grid3(g, g, g), g)
  {
    var cells := Grid3(g, g, g);
    Grid3Members(g, g, g);
    forall i | 0 <= i < |cells| ensures InGrid3(cells[i], g, g, g) {
      assert cells[i] in cells;
    }
  }

  /** The largest estimate over the coarse cells of a `g`-sized grid, in
      enumeration order. */
  function GridMax(m: array3<seq<nat>>, faces: nat, vertices: nat, g: int): nat
    reads m
    requires Measurable(m, vertices) && Candidate(g)
  {
    GridCellsInGrid(g);
    MaxOver(m, faces, vertices, g, Grid3(g, g, g))
  }

  /** `GetMax`: the enumeration callback keeps the largest estimate. */
  method GetMax(g: int, obj: Mesh.Obj) returns (max: nat)
    requires MeshMeasurable(obj) && Candidate(g)
    ensures max == GridMax(obj.faceMatrix, |obj.faceList|, |obj.vertexList|, g)
  {
    var m, faces, vertices := obj.faceMatrix, |obj.faceList|, |obj.vertexList|;
    var calls := EnumerateSpace(g, g, g);
    GridCellsInGrid(g);
    max := 0;
    var i := 0;
    while i < |calls|
      invariant 0 <= i <= |calls| && AllInGrid(calls[..i], g)
      invariant max == MaxOver(m, faces, vertices, g, calls[..i])
    {
      var vertexCount := Estimate(Sum(CubeList(m, g, calls[i])), faces, vertices);
      MaxOverSnoc(m, faces, vertices, g, calls, i);
      if vertexCount > max {
        max := vertexCount;
      }
      i := i + 1;
    }
    assert calls[..i] == calls;
  }

  /** What `GetMax` promises: no coarse cell's estimate exceeds it, and it is
      some cell's estimate unless it is 0. */
  lemma {:induction false} GetMaxBound(m: array3<seq<nat>>, faces: nat, vertices: nat, g: int)
    requires Measurable(m, vertices) && Candidate(g)
    ensures forall t :: InGrid3(t, g, g, g) ==> CellEstimate(m, faces, vertices, g, t) <= GridMax(m, faces, vertices, g)
    ensures GridMax(m, faces, vertices, g) == 0 || exists t :: InGrid3(t, g, g, g) && CellEstimate(m, faces, vertices, g, t) == GridMax(m, faces, vertices, g)
  {
    var cells := Grid3(g, g, g);
    Grid3Members(g, g, g);
    GridCellsInGrid(g);
    MaxOverSpec(m, faces, vertices, g, cells);
    forall t | InGrid3(t, g, g, g) ensures CellEstimate(m, faces, vertices, g, t) <= GridMax(m, faces, vertices, g) {
      var i :| 0 <= i < |cells| && cells[i] == t;
    }
    if GridMax(m, faces, vertices, g) != 0 {
      var i :| 0 <= i < |cells| && CellEstimate(m, faces, vertices, g, cells[i]) == GridMax(m, faces, vertices, g);
      assert cells[i] in cells;
    }
  }

  /* ---------- MaxVertices ---------- */

  /** `faces.Where(f => f.Value < maxVertices).OrderBy(f => f.Key).First()`
      over a table already in key order; `First` of nothing throws. */
  function ChooseGrid(table: seq<(int, nat)>, limit: int): (r: Result<(int, nat)>)
    ensures r.Success? ==> r.value in table
  {
    if table == [] then Failure("InvalidOperationException: no grid size under the vertex limit")
    else if table[0].1 < limit then Success(table[0])
    else ChooseGrid(table[1..], limit)
  }

  /** The choice fails exactly when no entry is under the limit, and
      otherwise is the first entry under it. */
  lemma {:induction false} ChooseGridSpec(table: seq<(int, nat)>, limit: int)
    ensures ChooseGrid(table, limit).Failure? <==> forall i :: 0 <= i < |table| ==> table[i].1 >= limit
    ensures ChooseGrid(table, limit).Success? ==>
      exists i :: 0 <= i < |table| && table[i] == ChooseGrid(table, limit).value
        && table[i].1 < limit && forall j :: 0 <= j < i ==> table[j].1 >= limit
  {
    if table != [] && table[0].1 >= limit {
      ChooseGridSpec(table[1..], limit);
      assert forall i :: 1 <= i < |table| ==> table[i] == table[1..][i - 1];
      if ChooseGrid(table, limit).Success? {
        var i :| 0 <= i < |table[1..]| && table[1..][i] == ChooseGrid(table, limit).value
          && table[1..][i].1 < limit && forall j :: 0 <= j < i ==> table[1..][j].1 >= limit;
        assert table[i + 1] == table[1..][i];
      }
    }
  }

  predicate AllCandidates(sizes: seq<int>)
  {
    forall i :: 0 <= i < |sizes| ==> Candidate(sizes[i])
  }

  /** The given sizes with their maxima, in the given order. */
  function MaxTable(m: array3<seq<nat>>, faces: nat, vertices: nat, sizes: seq<int>): (r: seq<(int, nat)>)
    reads m
    requires Measurable(m, vertices) && AllCandidates(sizes)
    ensures |r| == |sizes| && forall i :: 0 <= i < |r| ==> r[i].0 == sizes[i]
  {
    if sizes == [] then []
    else
      assert forall i :: 0 <= i < |sizes| - 1 ==> sizes[1..][i] == sizes[i + 1];
      [(sizes[0], GridMax(m, faces, vertices, sizes[0]))] + MaxTable(m, faces, vertices, sizes[1..])
  }

  /** The loop of `MaxVertices`: each size with its `GetMax`, then the
      choice. */
  method ChooseFrom(obj: Mesh.Obj, sizes: seq<int>, maxVertices: int) returns (r: Result<(int, nat)>)
    requires MeshMeasurable(obj) && AllCandidates(sizes)
    ensures r == ChooseGrid(MaxTable(obj.faceMatrix, |obj.faceList|, |obj.vertexList|, sizes), maxVertices)
  {
    var m, faces, vertices := obj.faceMatrix, |obj.faceList|, |obj.vertexList|;
    var table: seq<(int, nat)> := [];
    var i := 0;
    while i < |sizes|
      invariant 0 <= i <= |sizes|
      invariant table + MaxTable(m, faces, vertices, sizes[i..]) == MaxTable(m, faces, vertices, sizes)
    {
      var g := sizes[i];
      var max := GetMax(g, obj);
      MaxTableStep(m, faces, vertices, sizes, i, table);
      table := table + [(g, max)];
      i := i + 1;
    }
    assert sizes[i..] == [] && table + [] == table;
    assert table == MaxTable(m, faces, vertices, sizes);
    r := ChooseGrid(table, maxVertices);
  }

  lemma {:induction false} MaxTableStep(m: array3<seq<nat>>, faces: nat, vertices: nat, sizes: seq<int>, i: nat, table: seq<(int, nat)>)
    requires Measurable(m, vertices) && AllCandidates(sizes) && i < |sizes|
    requires table + MaxTable(m, faces, vertices, sizes[i..]) == MaxTable(m, faces, vertices, sizes)
    ensures (table + [(sizes[i], GridMax(m, faces, vertices, sizes[i]))]) + MaxTable(m, faces, vertices, sizes[i + 1..])
      == MaxTable(m, faces, vertices, sizes)
  {
    var rest := sizes[i..];
    assert rest[0] == sizes[i] && rest[1..] == sizes[i + 1..];
    MaxTableCons(m, faces, vertices, rest);
    Seqs.Associative(table, [(sizes[i], GridMax(m, faces, vertices, sizes[i]))], MaxTable(m, faces, vertices, sizes[i + 1..]));
  }

  lemma {:induction false} MaxTableCons(m: array3<seq<nat>>, faces: nat, vertices: nat, sizes: seq<int>)
    requires Measurable(m, vertices) && AllCandidates(sizes) && sizes != []
    ensures MaxTable(m, faces, vertices, sizes) == [(sizes[0], GridMax(m, faces, vertices, sizes[0]))] + MaxTable(m, faces, vertices, sizes[1..])
  {
  }

  /** `MaxVertices`: the smallest of the six sizes whose fullest cell is
      estimated under `maxVertices`, with that estimate; no such size fails. */
  method MaxVertices(obj: Mesh.Obj, maxVertices: int) returns (r: Result<(int, nat)>)
    requires MeshMeasurable(obj)
    ensures AllCandidates(Sizes())
    ensures r == ChooseGrid(MaxTable(obj.faceMatrix, |obj.faceList|, |obj.vertexList|, Sizes()), maxVertices)
  {
    SizesAreCandidates();
    r := ChooseFrom(obj, Sizes(), maxVertices);
  }

  /** With keys in ascending order the choice is the smallest key whose
      value is under the limit. */
  lemma {:induction false} ChooseGridSmallest(table: seq<(int, nat)>, limit: int)
    requires forall i, j :: 0 <= i < j < |table| ==> table[i].0 < table[j].0
    ensures var r := ChooseGrid(table, limit);
      r.Success? ==> forall e :: e in table && e.1 < limit ==> r.value.0 <= e.0
  {
    var r := ChooseGrid(table, limit);
    ChooseGridSpec(table, limit);
    if r.Success? {
      var i :| 0 <= i < |table| && table[i] == r.value && forall j :: 0 <= j < i ==> table[j].1 >= limit;
      forall e | e in table && e.1 < limit ensures r.value.0 <= e.0 {
        var j :| 0 <= j < |table| && table[j] == e;
        assert i <= j;
      }
    }
  }

  /** With the sizes ascending, as `Sizes()` are, the table's choice is the
      smallest size whose maximum is under the limit. */
  lemma {:induction false} MaxTableSmallest(m: array3<seq<nat>>, faces: nat, vertices: nat, sizes: seq<int>, maxVertices: int)
    requires Measurable(m, vertices) && AllCandidates(sizes)
    requires forall i, j :: 0 <= i < j < |sizes| ==> sizes[i] < sizes[j]
    ensures var r := ChooseGrid(MaxTable(m, faces, vertices, sizes), maxVertices);
      r.Success? ==> forall e :: e in MaxTable(m, faces, vertices, sizes) && e.1 < maxVertices ==> r.value.0 <= e.0
  {
    ChooseGridSmallest(MaxTable(m, faces, vertices, sizes), maxVertices);
  }

  /* ---------- the constructor's sorted list ---------- */

  /** Keys strictly ascending, as a `SortedList` keeps them. */
  predicate Ascending(list: seq<(nat, nat)>)
  {
    forall i, j :: 0 <= i < j < |list| ==> list[i].0 < list[j].0
  }

  predicate HasKey(list: seq<(nat, nat)>, k: nat)
  {
    exists i :: 0 <= i < |list| && list[i].0 == k
  }

  /** `SortedList.Add` of a new key: placed before the first larger key. */
  function InsertEntry(list: seq<(nat, nat)>, e: (nat, nat)): (r: seq<(nat, nat)>)
    requires Ascending(list) && !HasKey(list, e.0)
    ensures Ascending(r) && |r| == |list| + 1
    ensures forall x :: x in r <==> x in list || x == e
  {
    if list == [] then [e]
    else if e.0 < list[0].0 then [e] + list
    else
      var rest := InsertEntry(list[1..], e);
      assert forall x :: x in rest ==> x in list[1..] || x == e;
      assert forall i :: 0 <= i < |rest| ==> list[0].0 < rest[i].0 by {
        forall i | 0 <= i < |rest| ensures list[0].0 < rest[i].0 {
          assert rest[i] in rest;
          if rest[i] != e {
            var j :| 0 <= j < |list[1..]| && list[1..][j] == rest[i];
            assert list[j + 1] == rest[i];
          }
        }
      }
      assert list == [list[0]] + list[1..];
      [list[0]] + rest
  }

  predicate Duplicated(counts: seq<nat>)
  {
    exists i, j :: 0 <= i < j < |counts| && counts[i] == counts[j]
  }

  /** The list after the first `i` objects are keyed: ascending, one entry
      per object, each entry the count and position of an object. */
  predicate Keyed(vertexCounts: seq<nat>, list: seq<(nat, nat)>, i: int)
    requires 0 <= i <= |vertexCounts|
  {
    Ascending(list) && |list| == i
    && (forall e :: e in list ==> e.1 < i && vertexCounts[e.1] == e.0)
    && (forall j :: 0 <= j < i ==> (vertexCounts[j], j) in list)
  }

  /** Keying object `i`: its count is already a key exactly when an earlier
      object has the same count; otherwise the insert keeps the list keyed. */
  lemma {:induction false} KeyedStep(vertexCounts: seq<nat>, list: seq<(nat, nat)>, i: int)
    requires 0 <= i < |vertexCounts| && Keyed(vertexCounts, list, i) && !Duplicated(vertexCounts[..i])
    ensures HasKey(list, vertexCounts[i]) ==> Duplicated(vertexCounts)
    ensures !HasKey(list, vertexCounts[i]) ==>
      !Duplicated(vertexCounts[..i + 1]) && Keyed(vertexCounts, InsertEntry(list, (vertexCounts[i], i)), i + 1)
  {
    var k := vertexCounts[i];
    if HasKey(list, k) {
      var m :| 0 <= m < |list| && list[m].0 == k;
      assert list[m] in list;
      assert vertexCounts[list[m].1] == vertexCounts[i];
    } else {
      assert !Duplicated(vertexCounts[..i + 1]) by {
        forall a, b | 0 <= a < b < i + 1 ensures vertexCounts[a] != vertexCounts[b] {
          if b == i {
            assert (vertexCounts[a], a) in list;
          } else {
            assert vertexCounts[..i][a] == vertexCounts[a] && vertexCounts[..i][b] == vertexCounts[b];
          }
        }
      }
    }
  }

  /** The constructor keys each loaded object (by its position) on its
      vertex count in a `SortedList`, so objects are reported in ascending
      vertex count; two objects with the same count make `Add` throw. */
  method KeyObjects(vertexCounts: seq<nat>) returns (r: Result<seq<(nat, nat)>>)
    ensures r.Failure? <==> Duplicated(vertexCounts)
    ensures r.Success? ==> Ascending(r.value) && |r.value| == |vertexCounts|
    ensures r.Success? ==> forall e :: e in r.value ==> e.1 < |vertexCounts| && vertexCounts[e.1] == e.0
    ensures r.Success? ==> forall i :: 0 <= i < |vertexCounts| ==> (vertexCounts[i], i) in r.value
  {
    var list: seq<(nat, nat)> := [];
    var i := 0;
    while i < |vertexCounts|
      invariant 0 <= i <= |vertexCounts| && Keyed(vertexCounts, list, i)
      invariant !Duplicated(vertexCounts[..i])
    {
      var k := vertexCounts[i];
      KeyedStep(vertexCounts, list, i);
      if HasKey(list, k) {
        return Failure("ArgumentException: an object with the same vertex count was already added");
      }
      list := InsertEntry(list, (k, i));
      i := i + 1;
    }
    assert vertexCounts[..i] == vertexCounts;
    r := Success(list);
  }
}
