/** The grouping half of texture tiling (`PyriteLib/Texture.cs`): the faces
    of a tile are split into islands, each the faces reachable from a seed
    through shared texture vertices. */
module Islands {
  import opened Wrappers
  import opened Rects
  import opened Extents
  import opened Vertices
  import opened Faces
  import opened Uvs
  import opened RectTransforms
  import BinPack
  import opened Seqs

  /* ---------- index lists ---------- */

  /** Every entry is a valid position in a list of length `n`. */
  predicate Below(s: seq<nat>, n: nat)
  {
    forall k :: 0 <= k < |s| ==> s[k] < n
  }

  /** Strictly increasing, hence without duplicates. */
  predicate Sorted(s: seq<nat>)
  {
    forall i, j :: 0 <= i < j < |s| ==> s[i] < s[j]
  }

  predicate Distinct(s: seq<nat>)
  {
    forall i, j :: 0 <= i < j < |s| ==> s[i] != s[j]
  }

  lemma {:induction false} SortedCons(h: nat, t: seq<nat>)
    ensures Sorted(t) && (forall y :: y in t ==> h < y) ==> Sorted([h] + t)
  {
    var s := [h] + t;
    forall i, j | 0 <= i < j < |s| && Sorted(t) && (forall y :: y in t ==> h < y) ensures s[i] < s[j] {
      assert s[j] == t[j - 1];
      if i > 0 {
        assert s[i] == t[i - 1];
      } else {
        assert t[j - 1] in t;
      }
    }
  }

  lemma {:induction false} SortedSnoc(init: seq<nat>, last: nat)
    ensures Sorted(init) && (forall y :: y in init ==> y < last) ==> Sorted(init + [last])
  {
    var s := init + [last];
    forall i, j | 0 <= i < j < |s| && Sorted(init) && (forall y :: y in init ==> y < last) ensures s[i] < s[j] {
      assert s[i] == init[i];
      if j < |init| {
        assert s[j] == init[j];
      } else {
        assert init[i] in init;
      }
    }
  }

  /** `List.Remove(x)`: drops the first occurrence of `x`, if any. */
  function RemoveFirst(s: seq<nat>, x: nat): (r: seq<nat>)
    ensures forall y :: y in r ==> y in s
    ensures |r| == if x in s then |s| - 1 else |s|
    ensures Sorted(s) ==> Sorted(r) && forall y :: y in r <==> y in s && y != x
  {
    if s == [] then []
    else if s[0] == x then
      assert Sorted(s) ==> x !in s[1..];
      s[1..]
    else
      var rest := RemoveFirst(s[1..], x);
      assert s == [s[0]] + s[1..];
      assert Sorted(s) ==> forall y :: y in s[1..] ==> s[0] < y;
      SortedCons(s[0], rest);
      [s[0]] + rest
  }

  /* ---------- connected faces ---------- */

  /** Two faces share a texture vertex index: the equality the grouping query
      tests with (its comparer is not part of this model). */
  predicate SharesUv(a: FaceRec, b: FaceRec)
  {
    exists i, j :: 0 <= i < |a.vt| && 0 <= j < |b.vt| && a.vt[i] == b.vt[j]
  }

  lemma {:induction false} SharesUvSymmetric(a: FaceRec, b: FaceRec)
    ensures SharesUv(a, b) <==> SharesUv(b, a)
  {
  }

  /** Face `f` shares a texture vertex with one of the faces `ms`. */
  predicate SharesWithAny(faces: seq<FaceRec>, f: nat, ms: seq<nat>)
    requires f < |faces| && Below(ms, |faces|)
  {
    exists k :: 0 <= k < |ms| && SharesUv(faces[ms[k]], faces[f])
  }

  /** The query `remainingFaces.Where(f => matches.Contains(f, comparer))`:
      the remaining faces that share a texture vertex with a previous match,
      in their order. */
  function Matching(faces: seq<FaceRec>, remaining: seq<nat>, matches: seq<nat>): (r: seq<nat>)
    requires Below(remaining, |faces|) && Below(matches, |faces|)
    ensures Below(r, |faces|)
    ensures forall y :: y in r ==> y in remaining
    ensures forall k :: 0 <= k < |remaining| ==> (remaining[k] in r <==> SharesWithAny(faces, remaining[k], matches))
    ensures Sorted(remaining) ==> Sorted(r)
    decreases |remaining|
  {
    if remaining == [] then []
    else
      var n := |remaining| - 1;
      var init := remaining[..n];
      var last := remaining[n];
      var prev := Matching(faces, init, matches);
      assert forall k :: 0 <= k < n ==> init[k] == remaining[k];
      assert Sorted(remaining) ==> Sorted(init) && last !in init;
      assert Sorted(remaining) ==> forall y :: y in init ==> y < last;
      SortedSnoc(prev, last);
      if SharesWithAny(faces, last, matches) then prev + [last] else prev
  }

  /** Every face of `g` after the first shares a texture vertex with a face
      before it in `g`: the group is one island, grown from its seed. */
  predicate Linked(faces: seq<FaceRec>, g: seq<nat>)
    requires Below(g, |faces|)
  {
    forall k :: 0 < k < |g| ==> LinkedAt(faces, g, k)
  }

  /** The face at position `k` of `g` shares a texture vertex with an earlier one. */
  predicate LinkedAt(faces: seq<FaceRec>, g: seq<nat>, k: nat)
    requires Below(g, |faces|) && k < |g|
  {
    exists j :: 0 <= j < k && SharesUv(faces[g[j]], faces[g[k]])
  }

  /** Faces of the finished groups: distinct, seeded with their earliest
      face, each one island, disjoint from and sharing no texture vertex
      with later groups. */
  predicate GroupsOk(faces: seq<FaceRec>, groups: seq<seq<nat>>)
  {
    (forall a :: 0 <= a < |groups| ==> |groups[a]| > 0 && Distinct(groups[a]) && Below(groups[a], |faces|))
    && (forall a :: 0 <= a < |groups| ==> Below(groups[a], |faces|) && Linked(faces, groups[a]))
    && (forall a, x :: 0 <= a < |groups| && x in groups[a] ==> groups[a][0] <= x)
    && (forall b :: 0 <= b < |groups| ==> Outside(faces, groups[..b], groups[b]))
  }

  /** The faces `s` lie in none of the groups, share no texture vertex with
      them, and come after every group's first face. */
  predicate Outside(faces: seq<FaceRec>, groups: seq<seq<nat>>, s: seq<nat>)
  {
    forall a, x, y {:trigger x in groups[a], y in s} :: 0 <= a < |groups| && x in groups[a] && y in s ==>
      x < |faces| && y < |faces| && x != y && !SharesUv(faces[x], faces[y]) && groups[a][0] < y
  }

  /** Every face is grouped or among `rest`. */
  predicate Covered(n: nat, groups: seq<seq<nat>>, rest: seq<nat>)
  {
    forall x :: 0 <= x < n ==> x in rest || exists a :: 0 <= a < |groups| && x in groups[a]
  }

  /** The `foreach (var f in matches) remainingFaces.Remove(f)` loop. */
  method RemoveMatches(remaining: seq<nat>, matches: seq<nat>) returns (rest: seq<nat>)
    requires Sorted(remaining) && Sorted(matches)
    requires forall x :: x in matches ==> x in remaining
    ensures Sorted(rest) && |rest| == |remaining| - |matches|
    ensures forall y :: y in rest <==> y in remaining && y !in matches
    ensures forall k :: 0 <= k < |rest| ==> rest[k] in remaining
  {
    rest := remaining;
    var j := 0;
    while j < |matches|
      invariant 0 <= j <= |matches|
      invariant Sorted(rest) && |rest| == |remaining| - j
      invariant forall y :: y in rest <==> y in remaining && y !in matches[..j]
    {
      assert matches[j] !in matches[..j];
      assert matches[..j + 1] == matches[..j] + [matches[j]];
      rest := RemoveFirst(rest, matches[j]);
      j := j + 1;
    }
    assert matches[..j] == matches;
  }

  /** The `do … while (matches.Any())` loop: starting from `seed`, keep
      moving the remaining faces that share a texture vertex with the last
      round's matches into the group, until a round finds none. */
  method GrowGroup(faces: seq<FaceRec>, groups: seq<seq<nat>>, seed: nat, remaining: seq<nat>)
    returns (group: seq<nat>, rest: seq<nat>)
    requires seed < |faces| && Below(remaining, |faces|) && Sorted(remaining)
    requires forall y :: y in remaining ==> seed < y
    requires Outside(faces, groups, [seed]) && Outside(faces, groups, remaining)
    ensures |group| > 0 && group[0] == seed && Distinct(group) && Below(group, |faces|)
    ensures Linked(faces, group)
    ensures forall x :: x in group ==> seed <= x
    ensures Below(rest, |faces|) && Sorted(rest) && |rest| < |remaining| + 1
    ensures forall y :: y in rest ==> seed < y && y in remaining
    ensures forall y :: y in remaining ==> y in rest || y in group
    ensures Outside(faces, groups, group) && Outside(faces, groups, rest)
    ensures forall x, y :: x in group && y in rest ==> x != y && !SharesUv(faces[x], faces[y])
  {
    group := [seed];
    var matches := [seed];
    rest := remaining;
    while matches != []
      invariant |group| > 0 && group[0] == seed && Distinct(group) && Below(group, |faces|)
      invariant Linked(faces, group)
      invariant forall x :: x in group ==> seed <= x
      invariant Below(rest, |faces|) && Sorted(rest) && |rest| <= |remaining|
      invariant forall y :: y in rest ==> seed < y && y in remaining
      invariant forall y :: y in remaining ==> y in rest || y in group
      invariant Outside(faces, groups, group) && Outside(faces, groups, rest)
      invariant forall x, y :: x in group && y in rest ==> x != y
      invariant Below(matches, |faces|) && |matches| <= |group| && group[|group| - |matches|..] == matches
      invariant forall k, y :: 0 <= k < |group| - |matches| && y in rest ==> !SharesUv(faces[group[k]], faces[y])
      decreases |rest| + |matches|
    {
      var found := Matching(faces, rest, matches);
      GrowStep(faces, groups, seed, group, matches, rest, found);
      var left := RemoveMatches(rest, found);
      group := group + found;
      rest := left;
      matches := found;
    }
  }

  /** The facts one round of `GrowGroup` needs about the grown group. */
  lemma {:induction false} GrowStep(faces: seq<FaceRec>, groups: seq<seq<nat>>, seed: nat,
                 group: seq<nat>, matches: seq<nat>, rest: seq<nat>, found: seq<nat>)
    requires Below(rest, |faces|) && Sorted(rest) && Below(matches, |faces|) && Below(group, |faces|)
    requires found == Matching(faces, rest, matches)
    requires Distinct(group) && forall x, y :: x in group && y in rest ==> x != y
    requires Outside(faces, groups, group) && Outside(faces, groups, rest)
    requires |matches| <= |group| && group[|group| - |matches|..] == matches
    requires forall k, y :: 0 <= k < |group| - |matches| && y in rest ==> !SharesUv(faces[group[k]], faces[y])
    ensures Distinct(group + found) && Below(group + found, |faces|)
    ensures Linked(faces, group) ==> Linked(faces, group + found)
    ensures Outside(faces, groups, group + found)
    ensures forall k, y :: 0 <= k < |group| && y in rest && y !in found ==> !SharesUv(faces[group[k]], faces[y])
  {
    GrowDistinct(group, rest, found);
    if Linked(faces, group) {
      GrowLinked(faces, group, matches, rest, found);
    }
    forall k, y | 0 <= k < |group| && y in rest && y !in found ensures !SharesUv(faces[group[k]], faces[y]) {
      if k >= |group| - |matches| {
        LastMatchesDone(faces, group, matches, rest, found, k, y);
      }
    }
    OutsideConcat(faces, groups, group, found, rest);
  }

  lemma {:induction false} GrowDistinct(group: seq<nat>, rest: seq<nat>, found: seq<nat>)
    requires Distinct(group) && Sorted(found) && forall y :: y in found ==> y in rest
    requires forall x, y :: x in group && y in rest ==> x != y
    ensures Distinct(group + found)
  {
    var g := group + found;
    forall i, j | 0 <= i < j < |g| ensures g[i] != g[j] {
      if j >= |group| && i < |group| {
        assert g[j] in found && g[i] in group;
      } else if i >= |group| {
        assert g[i] == found[i - |group|] && g[j] == found[j - |group|];
      }
    }
  }

  /** A face a round finds shares a texture vertex with one of the round's
      previous matches. */
  lemma {:induction false} FoundShares(faces: seq<FaceRec>, rest: seq<nat>, matches: seq<nat>, y: nat)
    requires Below(rest, |faces|) && Below(matches, |faces|)
    requires y in Matching(faces, rest, matches)
    ensures y < |faces| && exists m :: 0 <= m < |matches| && SharesUv(faces[matches[m]], faces[y])
  {
    var yi :| 0 <= yi < |rest| && rest[yi] == y;
    assert SharesWithAny(faces, y, matches);
  }

  /** Each face a round finds shares a texture vertex with one of the last
      round's matches, which sit at the end of the group. */
  lemma {:induction false} GrowLinked(faces: seq<FaceRec>, group: seq<nat>, matches: seq<nat>, rest: seq<nat>, found: seq<nat>)
    requires Below(rest, |faces|) && Below(matches, |faces|) && Below(group, |faces|)
    requires found == Matching(faces, rest, matches)
    requires |matches| <= |group| && group[|group| - |matches|..] == matches
    requires Linked(faces, group)
    ensures Linked(faces, group + found)
  {
    var g := group + found;
    assert Below(g, |faces|) by {
      forall k | 0 <= k < |g| ensures g[k] < |faces| {
        if k >= |group| { assert g[k] == found[k - |group|]; }
      }
    }
    forall k | 0 < k < |g| ensures LinkedAt(faces, g, k) {
      if k < |group| {
        assert LinkedAt(faces, group, k);
        var j :| 0 <= j < k && SharesUv(faces[group[j]], faces[group[k]]);
        assert g[j] == group[j] && g[k] == group[k];
      } else {
        var y := found[k - |group|];
        assert g[k] == y;
        FoundShares(faces, rest, matches, y);
        var m :| 0 <= m < |matches| && SharesUv(faces[matches[m]], faces[y]);
        var j := |group| - |matches| + m;
        assert g[j] == group[j] == matches[m];
      }
    }
  }

  /** A face left over after a round shares nothing with the round's matches. */
  lemma {:induction false} LastMatchesDone(faces: seq<FaceRec>, group: seq<nat>, matches: seq<nat>, rest: seq<nat>,
                        found: seq<nat>, k: int, y: nat)
    requires Below(rest, |faces|) && Below(matches, |faces|) && Below(group, |faces|)
    requires found == Matching(faces, rest, matches)
    requires |matches| <= |group| && group[|group| - |matches|..] == matches
    requires |group| - |matches| <= k < |group| && y in rest && y !in found
    ensures !SharesUv(faces[group[k]], faces[y])
  {
    var m := k - (|group| - |matches|);
    assert matches[m] == group[k];
    var yi :| 0 <= yi < |rest| && rest[yi] == y;
    assert !SharesWithAny(faces, y, matches);
  }

  lemma {:induction false} OutsideConcat(faces: seq<FaceRec>, groups: seq<seq<nat>>, group: seq<nat>, found: seq<nat>, rest: seq<nat>)
    requires Outside(faces, groups, group) && Outside(faces, groups, rest)
    requires forall y :: y in found ==> y in rest
    ensures Outside(faces, groups, group + found)
  {
    forall a, x, y | 0 <= a < |groups| && x in groups[a] && y in group + found
      ensures x < |faces| && y < |faces| && x != y && !SharesUv(faces[x], faces[y]) && groups[a][0] < y
    {
      if y in group {
        assert Outside(faces, groups, group);
      } else {
        assert y in rest;
      }
    }
  }

  lemma {:induction false} OutsideSub(faces: seq<FaceRec>, groups: seq<seq<nat>>, s: seq<nat>, t: seq<nat>)
    requires Outside(faces, groups, s) && forall y :: y in t ==> y in s
    ensures Outside(faces, groups, t)
  {
    forall a, x, y | 0 <= a < |groups| && x in groups[a] && y in t
      ensures x < |faces| && y < |faces| && x != y && !SharesUv(faces[x], faces[y]) && groups[a][0] < y
    {
      assert y in s;
    }
  }

  /** `FindConnectedFaces`: faces (by position) grouped into islands. Each
      group is seeded with the earliest face not yet grouped and grows while
      some remaining face shares a texture vertex with the last round's
      matches; the groups partition the faces. */
  method FindConnectedFaces(faces: seq<FaceRec>) returns (groups: seq<seq<nat>>)
    ensures GroupsOk(faces, groups)
    ensures Covered(|faces|, groups, [])
  {
    var remaining: seq<nat> := seq(|faces|, i requires 0 <= i < |faces| => i);
    groups := [];
    forall x | 0 <= x < |faces| ensures x in remaining {
      assert remaining[x] == x;
    }
    while remaining != []
      invariant GroupsOk(faces, groups)
      invariant Below(remaining, |faces|) && Sorted(remaining)
      invariant Outside(faces, groups, remaining)
      invariant Covered(|faces|, groups, remaining)
      decreases |remaining|
    {
      var seed := remaining[0];
      ghost var old_remaining := remaining;
      assert forall y :: y in remaining ==> y == seed || y in remaining[1..];
      remaining := remaining[1..];
      OutsideSub(faces, groups, old_remaining, [seed]);
      OutsideSub(faces, groups, old_remaining, remaining);
      var group, rest := GrowGroup(faces, groups, seed, remaining);
      CloseGroup(faces, groups, group, rest);
      forall x | 0 <= x < |faces| ensures x in rest || exists a :: 0 <= a < |groups| + 1 && x in (groups + [group])[a] {
        if x !in rest {
          if x in old_remaining {
            assert x in group;
            assert (groups + [group])[|groups|] == group;
          } else {
            var a :| 0 <= a < |groups| && x in groups[a];
            assert (groups + [group])[a] == groups[a];
          }
        }
      }
      groups := groups + [group];
      remaining := rest;
    }
  }

  /** Adding a finished group keeps the groups well formed and the rest outside them. */
  lemma {:induction false} CloseGroup(faces: seq<FaceRec>, groups: seq<seq<nat>>, group: seq<nat>, rest: seq<nat>)
    requires GroupsOk(faces, groups)
    requires |group| > 0 && Distinct(group) && Below(group, |faces|) && Below(rest, |faces|)
    requires Linked(faces, group)
    requires forall x :: x in group ==> group[0] <= x
    requires forall y :: y in rest ==> group[0] < y
    requires Outside(faces, groups, group) && Outside(faces, groups, rest)
    requires forall x, y :: x in group && y in rest ==> x != y && !SharesUv(faces[x], faces[y])
    ensures GroupsOk(faces, groups + [group])
    ensures Outside(faces, groups + [group], rest)
  {
    var gs := groups + [group];
    forall b | 0 <= b < |gs| ensures Outside(faces, gs[..b], gs[b]) {
      if b == |groups| {
        assert gs[..b] == groups;
      } else {
        assert gs[..b] == groups[..b];
      }
    }
  }

  /* ---------- the grouping is a partition ---------- */

  lemma {:induction false} FlattenMembers(groups: seq<seq<nat>>)
    ensures forall x :: x in Flatten<nat>(groups) <==> exists a :: 0 <= a < |groups| && x in groups[a]
  {
    if groups != [] {
      var init := groups[..|groups| - 1];
      FlattenMembers(init);
      assert forall a :: 0 <= a < |init| ==> init[a] == groups[a];
    }
  }

  lemma {:induction false} DistinctConcat(a: seq<nat>, b: seq<nat>)
    requires Distinct(a) && Distinct(b) && forall x :: x in a ==> x !in b
    ensures Distinct(a + b)
  {
    var s := a + b;
    forall i, j | 0 <= i < j < |s| ensures s[i] != s[j] {
      if i < |a| && j >= |a| {
        assert s[i] in a && s[j] == b[j - |a|];
      } else if i >= |a| {
        assert s[i] == b[i - |a|] && s[j] == b[j - |a|];
      } else {
        assert s[i] == a[i] && s[j] == a[j];
      }
    }
  }

  lemma {:induction false} FlattenDistinct(faces: seq<FaceRec>, groups: seq<seq<nat>>)
    requires GroupsOk(faces, groups)
    ensures Distinct(Flatten<nat>(groups))
  {
    if groups != [] {
      var n := |groups| - 1;
      var init := groups[..n];
      assert GroupsOk(faces, init) by {
        forall b | 0 <= b < |init| ensures Outside(faces, init[..b], init[b]) {
          assert init[..b] == groups[..b];
        }
      }
      FlattenDistinct(faces, init);
      FlattenMembers(init);
      assert Outside(faces, groups[..n], groups[n]);
      assert groups[..n] == init;
      forall x | x in Flatten<nat>(init) ensures x !in groups[n] {
        var a :| 0 <= a < |init| && x in init[a];
        forall y | y in groups[n] ensures y != x {
          assert x in init[a] && y in groups[n];
        }
      }
      DistinctConcat(Flatten<nat>(init), groups[n]);
    }
  }

  /** The distinct entries of `s`. */
  function Elems(s: seq<nat>): set<nat>
  {
    set x | x in s
  }

  /** A sequence without duplicates has as many distinct elements as entries. */
  lemma {:induction false} DistinctCard(s: seq<nat>)
    requires Distinct(s)
    ensures |Elems(s)| == |s|
  {
    if s != [] {
      var init := s[..|s| - 1];
      var last := s[|s| - 1];
      assert Distinct(init);
      DistinctCard(init);
      forall x | x in init ensures x != last {
        var i :| 0 <= i < |init| && init[i] == x;
        assert s[i] == x;
      }
      assert s == init + [last];
      assert last !in Elems(init);
      assert Elems(s) == Elems(init) + {last};
    }
  }

  /** The face indices `0 .. n-1`. */
  function Range(n: nat): (r: set<nat>)
    ensures forall x :: x in r <==> 0 <= x < n
  {
    if n == 0 then {} else Range(n - 1) + {n - 1}
  }

  lemma {:induction false} RangeCard(n: nat)
    ensures |Range(n)| == n
  {
    if n > 0 {
      RangeCard(n - 1);
      assert n - 1 !in Range(n - 1);
    }
  }

  lemma {:induction false} SameSet(s: seq<nat>, n: nat)
    requires forall x :: x in s <==> 0 <= x < n
    ensures Elems(s) == Range(n)
  {
  }

  /** Faces of different groups are different faces and share no texture
      vertex, and each group starts with a face earlier than every later
      group's first face. */
  lemma {:induction false} GroupsApart(faces: seq<FaceRec>, groups: seq<seq<nat>>)
    requires GroupsOk(faces, groups)
    ensures forall a, b, x, y :: 0 <= a < b < |groups| && x in groups[a] && y in groups[b] ==>
      x < |faces| && y < |faces| && x != y && !SharesUv(faces[x], faces[y]) && !SharesUv(faces[y], faces[x])
    ensures forall a, b :: 0 <= a < b < |groups| ==> groups[a][0] < groups[b][0]
  {
    forall a, b, x, y | 0 <= a < b < |groups| && x in groups[a] && y in groups[b]
      ensures x < |faces| && y < |faces| && x != y && !SharesUv(faces[x], faces[y]) && !SharesUv(faces[y], faces[x])
    {
      assert Outside(faces, groups[..b], groups[b]);
      assert groups[..b][a] == groups[a];
      assert x in groups[..b][a];
      SharesUvSymmetric(faces[x], faces[y]);
    }
    forall a, b | 0 <= a < b < |groups| ensures groups[a][0] < groups[b][0] {
      assert Outside(faces, groups[..b], groups[b]);
      assert groups[..b][a] == groups[a];
      assert groups[a][0] in groups[..b][a] && groups[b][0] in groups[b];
    }
  }

  /** The groups' faces are exactly the faces of the mesh. */
  lemma {:induction false} FlattenCovers(faces: seq<FaceRec>, groups: seq<seq<nat>>)
    requires GroupsOk(faces, groups) && Covered(|faces|, groups, [])
    ensures forall x :: x in Flatten<nat>(groups) <==> 0 <= x < |faces|
  {
    FlattenMembers(groups);
    forall x | x in Flatten<nat>(groups) ensures x < |faces| {
      var a :| 0 <= a < |groups| && x in groups[a];
      assert Below(groups[a], |faces|);
      var k :| 0 <= k < |groups[a]| && groups[a][k] == x;
    }
    forall x | 0 <= x < |faces| ensures x in Flatten<nat>(groups) {
      assert x in [] || exists a :: 0 <= a < |groups| && x in groups[a];
    }
  }

  /** The groups of `FindConnectedFaces` hold every face exactly once: the
      faces, group after group, are the indices `0 .. n-1` without
      repetition, so the group sizes add up to the face count. */
  lemma {:induction false} GroupsPartition(faces: seq<FaceRec>, groups: seq<seq<nat>>)
    requires GroupsOk(faces, groups) && Covered(|faces|, groups, [])
    ensures Distinct(Flatten<nat>(groups))
    ensures forall x :: x in Flatten<nat>(groups) <==> 0 <= x < |faces|
    ensures TotalSize<nat>(groups) == |faces|
  {
    FlattenDistinct(faces, groups);
    FlattenCovers(faces, groups);
    DistinctCard(Flatten<nat>(groups));
    RangeCard(|faces|);
    SameSet(Flatten<nat>(groups), |faces|);
  }
}
