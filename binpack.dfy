/** `MaxRectanglesBinPack`: the MaxRects packer over integer rectangles. The
    packer keeps a list of used rectangles and a list of maximal free
    rectangles; placing a rectangle splits every free rectangle it overlaps
    and then drops free rectangles contained in others.

    Scores are unbounded integers here (see README, "Left out"). */
module BinPack {
  import opened Wrappers
  import opened Rects

  const IntMax: int := 0x7FFF_FFFF

  datatype Heuristic =
    | BestShortSideFit
    | BestLongSideFit
    | BestAreaFit
    | BottomLeftRule
    | ContactPointRule

  /* ---------- rectangle relations ---------- */

  /** `IsContainedIn`: all four edges of `a` within those of `b`, inclusive. */
  predicate IsContainedIn(a: Rect, b: Rect)
  {
    a.x >= b.x && a.y >= b.y && a.x + a.width <= b.x + b.width && a.y + a.height <= b.y + b.height
  }

  /** The separating-axis test at the head of `SplitFreeNode`: the two
      rectangles share interior area. */
  predicate Overlaps(used: Rect, free: Rect)
  {
    !(used.x >= free.x + free.width || used.x + used.width <= free.x
      || used.y >= free.y + free.height || used.y + used.height <= free.y)
  }

  lemma {:induction false} OverlapsSymmetric(a: Rect, b: Rect)
    ensures Overlaps(a, b) == Overlaps(b, a)
  {
  }

  /** Containment is a preorder. */
  lemma {:induction false} ContainedPreorder(a: Rect, b: Rect, c: Rect)
    ensures IsContainedIn(a, a)
    ensures IsContainedIn(a, b) && IsContainedIn(b, c) ==> IsContainedIn(a, c)
  {
  }

  /** A rectangle inside one that misses `u` misses `u` too. */
  lemma {:induction false} ContainedKeepsDisjoint(u: Rect, a: Rect, b: Rect)
    requires IsContainedIn(a, b) && !Overlaps(u, b)
    ensures !Overlaps(u, a) && !Overlaps(a, u)
  {
  }

  /* ---------- SplitFreeNode ---------- */

  /** The free rectangles `SplitFreeNode` adds for `freeNode` once `usedNode`
      is placed, in the order it adds them: above, below, left, right. */
  function SplitChildren(freeNode: Rect, usedNode: Rect): (r: seq<Rect>)
    ensures |r| <= 4
    ensures !Overlaps(usedNode, freeNode) ==> r == []
  {
    if !Overlaps(usedNode, freeNode) then []
    else
      var fRight, fBottom := freeNode.x + freeNode.width, freeNode.y + freeNode.height;
      var uRight, uBottom := usedNode.x + usedNode.width, usedNode.y + usedNode.height;
      var vertical := usedNode.x < fRight && uRight > freeNode.x;
      var top := if vertical && usedNode.y > freeNode.y && usedNode.y < fBottom
        then [freeNode.(height := usedNode.y - freeNode.y)] else [];
      var bottom := if vertical && uBottom < fBottom
        then [freeNode.(y := uBottom, height := fBottom - uBottom)] else [];
      var horizontal := usedNode.y < fBottom && uBottom > freeNode.y;
      var left := if horizontal && usedNode.x > freeNode.x && usedNode.x < fRight
        then [freeNode.(width := usedNode.x - freeNode.x)] else [];
      var right := if horizontal && uRight < fRight
        then [freeNode.(x := uRight, width := fRight - uRight)] else [];
      top + bottom + left + right
  }

  /** Every piece lies inside the free rectangle and clear of the used one. */
  lemma {:induction false} SplitChildrenSound(freeNode: Rect, usedNode: Rect)
    ensures forall c :: c in SplitChildren(freeNode, usedNode) ==>
      IsContainedIn(c, freeNode) && !Overlaps(usedNode, c)
  {
  }

  predicate PointIn(px: int, py: int, r: Rect)
  {
    r.x <= px < r.x + r.width && r.y <= py < r.y + r.height
  }

  /** The pieces cover what the used rectangle leaves of the free one: every
      unit cell of the free rectangle outside the used one is in some piece. */
  lemma {:induction false} SplitChildrenCover(freeNode: Rect, usedNode: Rect, px: int, py: int)
    requires Overlaps(usedNode, freeNode)
    requires PointIn(px, py, freeNode) && !PointIn(px, py, usedNode)
    ensures exists c :: c in SplitChildren(freeNode, usedNode) && PointIn(px, py, c)
  {
    var fRight, fBottom := freeNode.x + freeNode.width, freeNode.y + freeNode.height;
    var uRight, uBottom := usedNode.x + usedNode.width, usedNode.y + usedNode.height;
    var cs := SplitChildren(freeNode, usedNode);
    if py < usedNode.y {
      var c := freeNode.(height := usedNode.y - freeNode.y);
      assert c == cs[0];
      assert PointIn(px, py, c);
    } else if py >= uBottom {
      var c := freeNode.(y := uBottom, height := fBottom - uBottom);
      assert c in cs;
      assert PointIn(px, py, c);
    } else if px < usedNode.x {
      var c := freeNode.(width := usedNode.x - freeNode.x);
      assert c in cs;
      assert PointIn(px, py, c);
    } else {
      var c := freeNode.(x := uRight, width := fRight - uRight);
      assert c == cs[|cs| - 1];
      assert PointIn(px, py, c);
    }
  }

  /** The free list after every free rectangle has been split by `node`:
      the rectangles it misses, in order, then the pieces of the others. */
  function Kept(free: seq<Rect>, node: Rect): seq<Rect>
    decreases |free|
  {
    if free == [] then []
    else
      var last := free[|free| - 1];
      Kept(free[..|free| - 1], node) + (if Overlaps(node, last) then [] else [last])
  }

  function Pieces(free: seq<Rect>, node: Rect): seq<Rect>
    decreases |free|
  {
    if free == [] then []
    else Pieces(free[..|free| - 1], node) + SplitChildren(free[|free| - 1], node)
  }

  /** The kept rectangles are exactly the free ones the node misses. */
  lemma {:induction false} KeptMembers(free: seq<Rect>, node: Rect)
    ensures forall f :: f in Kept(free, node) <==> f in free && !Overlaps(node, f)
    decreases |free|
  {
    if free != [] {
      var init := free[..|free| - 1];
      var last := free[|free| - 1];
      assert free == init + [last];
      KeptMembers(init, node);
    }
  }

  /** Every piece lies in a free rectangle and misses the node. */
  lemma {:induction false} PiecesSound(free: seq<Rect>, node: Rect)
    ensures forall c :: c in Pieces(free, node) ==> exists f :: f in free && IsContainedIn(c, f) && !Overlaps(node, c)
    decreases |free|
  {
    if free != [] {
      var init := free[..|free| - 1];
      var last := free[|free| - 1];
      assert free == init + [last];
      PiecesSound(init, node);
      SplitChildrenSound(last, node);
      assert forall c :: c in Pieces(free, node) ==> c in Pieces(init, node) || c in SplitChildren(last, node);
    }
  }

  function SplitAll(free: seq<Rect>, node: Rect): seq<Rect>
  {
    Kept(free, node) + Pieces(free, node)
  }

  /* ---------- the packing invariant ---------- */

  function Bin(binWidth: int, binHeight: int): Rect
  {
    Rect(0, 0, binWidth, binHeight)
  }

  /** Free rectangles lie in the bin and miss every used rectangle; used
      rectangles lie in the bin and miss each other. */
  predicate Packing(binWidth: int, binHeight: int, used: seq<Rect>, free: seq<Rect>)
  {
    (forall f :: f in free ==> IsContainedIn(f, Bin(binWidth, binHeight)))
    && (forall f, u :: f in free && u in used ==> !Overlaps(u, f))
    && (forall u :: u in used ==> IsContainedIn(u, Bin(binWidth, binHeight)))
    && (forall i, j :: 0 <= i < j < |used| ==> !Overlaps(used[i], used[j]))
  }

  /** Splitting the free list by a node that sits inside one of the free
      rectangles, then recording it as used, keeps the packing invariant. */
  lemma {:induction false} SplitKeepsPacking(binWidth: int, binHeight: int, used: seq<Rect>, free: seq<Rect>, node: Rect, k: nat)
    requires Packing(binWidth, binHeight, used, free)
    requires k < |free| && IsContainedIn(node, free[k])
    ensures Packing(binWidth, binHeight, used + [node], SplitAll(free, node))
  {
    var bin := Bin(binWidth, binHeight);
    var s := SplitAll(free, node);
    var used' := used + [node];
    KeptMembers(free, node);
    PiecesSound(free, node);
    assert free[k] in free;
    forall u | u in used ensures !Overlaps(u, node) && !Overlaps(node, u) {
      ContainedKeepsDisjoint(u, node, free[k]);
    }
    forall f | f in s ensures IsContainedIn(f, bin) && forall u :: u in used' ==> !Overlaps(u, f) {
      var g: Rect;
      if f in Kept(free, node) {
        g := f;
        ContainedPreorder(f, f, f);
      } else {
        g :| g in free && IsContainedIn(f, g) && !Overlaps(node, f);
      }
      forall u | u in used' ensures !Overlaps(u, f) {
        if u in used {
          ContainedKeepsDisjoint(u, f, g);
        }
      }
    }
    assert IsContainedIn(node, bin);
    forall i, j | 0 <= i < j < |used'| ensures !Overlaps(used'[i], used'[j]) {
      if j == |used| {
        assert used'[i] in used;
      } else {
        assert used'[i] == used[i] && used'[j] == used[j];
      }
    }
  }

  /* ---------- PruneFreeList ---------- */

  /** No free rectangle is contained in another at a different position. */
  predicate Pruned(free: seq<Rect>)
  {
    forall i, j :: 0 <= i < |free| && 0 <= j < |free| && i != j ==> !IsContainedIn(free[i], free[j])
  }

  /** What pruning keeps: nothing new, and everything dropped lies in
      something kept, so the free area is the same. */
  predicate PruneOf(result: seq<Rect>, free: seq<Rect>)
  {
    (forall r :: r in result ==> r in free)
    && (forall f :: f in free ==> Covered(f, result))
  }

  /** `f` lies in some rectangle of `rs`. */
  predicate Covered(f: Rect, rs: seq<Rect>)
  {
    exists r :: r in rs && IsContainedIn(f, r)
  }

  /* ---------- candidate positions and the best-fit choice ---------- */

  /** A candidate placement with its primary and secondary score; lower is better. */
  datatype Cand = Cand(node: Rect, s1: int, s2: int)

  /** Strict lexicographic improvement: the test every heuristic applies. */
  predicate Better(a1: int, a2: int, b1: int, b2: int)
  {
    a1 < b1 || (a1 == b1 && a2 < b2)
  }

  /** The candidate a scan keeps: the first that strictly beats the initial
      scores and every earlier candidate, and that nothing beats. */
  predicate IsChoice(cs: seq<Cand>, init1: int, init2: int, r: Option<nat>)
  {
    match r
    case None => forall k :: 0 <= k < |cs| ==> !Better(cs[k].s1, cs[k].s2, init1, init2)
    case Some(k) =>
      k < |cs| && Better(cs[k].s1, cs[k].s2, init1, init2)
      && (forall j :: 0 <= j < |cs| ==> !Better(cs[j].s1, cs[j].s2, cs[k].s1, cs[k].s2))
      && (forall j :: 0 <= j < k ==> Better(cs[k].s1, cs[k].s2, cs[j].s1, cs[j].s2))
  }

  /** The scan, candidate by candidate, replacing on strict improvement. */
  function Choose(cs: seq<Cand>, init1: int, init2: int): (r: Option<nat>)
    ensures IsChoice(cs, init1, init2, r)
    decreases |cs|
  {
    if cs == [] then None
    else
      var n := |cs| - 1;
      var prev := Choose(cs[..n], init1, init2);
      assert forall j :: 0 <= j < n ==> cs[..n][j] == cs[j];
      var b1 := if prev.Some? then cs[prev.value].s1 else init1;
      var b2 := if prev.Some? then cs[prev.value].s2 else init2;
      if Better(cs[n].s1, cs[n].s2, b1, b2) then Some(n) else prev
  }

  /** There is only one choice. */
  lemma {:induction false} ChoiceUnique(cs: seq<Cand>, init1: int, init2: int, r1: Option<nat>, r2: Option<nat>)
    requires IsChoice(cs, init1, init2, r1) && IsChoice(cs, init1, init2, r2)
    ensures r1 == r2
  {
  }

  function Abs(n: int): nat { if n < 0 then -n else n }
  function Min(a: int, b: int): int { if a <= b then a else b }
  function Max(a: int, b: int): int { if a >= b then a else b }

  /** `CommonIntervalLength`: 0 when the intervals are apart, else the
      distance from the later start to the earlier end. */
  function CommonIntervalLength(i1start: int, i1end: int, i2start: int, i2end: int): int
  {
    if i1end < i2start || i2end < i1start then 0
    else Min(i1end, i2end) - Max(i1start, i2start)
  }

  /** For intervals given start first, it is the length of their
      intersection, whichever interval comes first. */
  lemma {:induction false} CommonIntervalLengthIsOverlap(a1: int, a2: int, b1: int, b2: int)
    requires a1 <= a2 && b1 <= b2
    ensures CommonIntervalLength(a1, a2, b1, b2) == Max(0, Min(a2, b2) - Max(a1, b1))
    ensures CommonIntervalLength(a1, a2, b1, b2) == CommonIntervalLength(b1, b2, a1, a2)
    ensures CommonIntervalLength(a1, a2, b1, b2) <= a2 - a1
  {
  }

  /** The contact added by one used rectangle. */
  function UsedContact(u: Rect, x: int, y: int, width: int, height: int): int
  {
    (if u.x == x + width || u.x + u.width == x
      then CommonIntervalLength(u.y, u.y + u.height, y, y + height) else 0)
    + (if u.y == y + height || u.y + u.height == y
      then CommonIntervalLength(u.x, u.x + u.width, x, x + width) else 0)
  }

  function SumContacts(used: seq<Rect>, x: int, y: int, width: int, height: int): int
    decreases |used|
  {
    if used == [] then 0
    else SumContacts(used[..|used| - 1], x, y, width, height) + UsedContact(used[|used| - 1], x, y, width, height)
  }

  lemma {:induction false} SumContactsSnoc(used: seq<Rect>, i: int, x: int, y: int, width: int, height: int)
    requires 0 <= i < |used|
    ensures SumContacts(used[..i + 1], x, y, width, height)
      == SumContacts(used[..i], x, y, width, height) + UsedContact(used[i], x, y, width, height)
  {
    assert used[..i + 1][..i] == used[..i];
  }

  /** The score `ContactPointScoreNode` computes: edge length shared with the
      bin border and with used rectangles. */
  function ContactScore(binWidth: int, binHeight: int, used: seq<Rect>, x: int, y: int, width: int, height: int): int
  {
    (if x == 0 || x + width == binWidth then height else 0)
    + (if y == 0 || y + height == binHeight then width else 0)
    + SumContacts(used, x, y, width, height)
  }

  /** One used rectangle touches along at most the rectangle's height plus
      its width. */
  lemma {:induction false} UsedContactBounds(u: Rect, x: int, y: int, width: int, height: int)
    requires width >= 0 && height >= 0 && u.width >= 0 && u.height >= 0
    ensures 0 <= UsedContact(u, x, y, width, height) <= width + height
  {
    CommonIntervalLengthIsOverlap(u.y, u.y + u.height, y, y + height);
    CommonIntervalLengthIsOverlap(u.x, u.x + u.width, x, x + width);
    CommonIntervalLengthIsOverlap(y, y + height, u.y, u.y + u.height);
    CommonIntervalLengthIsOverlap(x, x + width, u.x, u.x + u.width);
  }

  /** With sizes of non-negative extent the contact with used rectangles is
      never negative and grows by at most (width + height) per used rectangle. */
  lemma {:induction false} SumContactsBounds(used: seq<Rect>, x: int, y: int, width: int, height: int)
    requires width >= 0 && height >= 0
    requires forall u :: u in used ==> u.width >= 0 && u.height >= 0
    ensures 0 <= SumContacts(used, x, y, width, height)
    ensures used != [] ==> (SumContacts(used, x, y, width, height)
      <= SumContacts(used[..|used| - 1], x, y, width, height) + width + height)
    decreases |used|
  {
    if used != [] {
      var init := used[..|used| - 1];
      assert forall u :: u in init ==> u in used;
      SumContactsBounds(init, x, y, width, height);
      var u := used[|used| - 1];
      assert u in used;
      UsedContactBounds(u, x, y, width, height);
      assert SumContacts(used, x, y, width, height)
        == SumContacts(init, x, y, width, height) + UsedContact(u, x, y, width, height);
    }
  }

  /** The context the scores depend on. */
  datatype Packer = Packer(binWidth: int, binHeight: int, allowRotations: bool, used: seq<Rect>)

  /** The scores of a placement of size `nw` x `nh` at the corner of `f`. */
  function Scores(p: Packer, h: Heuristic, f: Rect, nw: int, nh: int, width: int, height: int): (int, int)
  {
    var leftoverHoriz := Abs(f.width - nw);
    var leftoverVert := Abs(f.height - nh);
    match h
    case BestShortSideFit => (Min(leftoverHoriz, leftoverVert), Max(leftoverHoriz, leftoverVert))
    case BestLongSideFit => (Max(leftoverHoriz, leftoverVert), Min(leftoverHoriz, leftoverVert))
    case BestAreaFit => (f.width * f.height - width * height, Min(leftoverHoriz, leftoverVert))
    case BottomLeftRule => (f.y + nh, f.x)
    case ContactPointRule => (-ContactScore(p.binWidth, p.binHeight, p.used, f.x, f.y, nw, nh), 0)
  }

  function MakeCand(p: Packer, h: Heuristic, f: Rect, nw: int, nh: int, width: int, height: int): Cand
  {
    var s := Scores(p, h, f, nw, nh, width, height);
    Cand(Rect(f.x, f.y, nw, nh), s.0, s.1)
  }

  /** The placements tried in free rectangle `f`: upright if it fits, then
      turned if turning is allowed and it fits. */
  function CandsAt(p: Packer, h: Heuristic, f: Rect, width: int, height: int): seq<Cand>
  {
    (if f.width >= width && f.height >= height then [MakeCand(p, h, f, width, height, width, height)] else [])
    + (if p.allowRotations && f.width >= height && f.height >= width
       then [MakeCand(p, h, f, height, width, width, height)] else [])
  }

  function Candidates(p: Packer, h: Heuristic, free: seq<Rect>, width: int, height: int): seq<Cand>
    decreases |free|
  {
    if free == [] then []
    else Candidates(p, h, free[..|free| - 1], width, height) + CandsAt(p, h, free[|free| - 1], width, height)
  }

  /** Every candidate has the requested size, or the turned size when turning
      is allowed, sits at the corner of some free rectangle and fits in it. */
  lemma {:induction false} CandidatesFit(p: Packer, h: Heuristic, free: seq<Rect>, width: int, height: int)
    ensures forall c :: c in Candidates(p, h, free, width, height) ==>
      ((c.node.width == width && c.node.height == height)
       || (p.allowRotations && c.node.width == height && c.node.height == width))
      && exists k :: 0 <= k < |free| && c.node.x == free[k].x && c.node.y == free[k].y
                     && IsContainedIn(c.node, free[k])
    decreases |free|
  {
    if free != [] {
      var init := free[..|free| - 1];
      CandidatesFit(p, h, init, width, height);
      forall c | c in Candidates(p, h, free, width, height)
        ensures exists k :: 0 <= k < |free| && c.node.x == free[k].x && c.node.y == free[k].y
                            && IsContainedIn(c.node, free[k])
      {
        if c in Candidates(p, h, init, width, height) {
          var k :| 0 <= k < |init| && c.node.x == init[k].x && c.node.y == init[k].y && IsContainedIn(c.node, init[k]);
          assert init[k] == free[k];
        } else {
          assert free[|free| - 1] == free[|free| - 1];
        }
      }
    }
  }

  /** The initial scores of a scan: the primary starts at `int.MaxValue`
      (-1 for the contact score, which is maximised, here negated) and the
      secondary is whatever the caller's variable held. */
  function InitialScores(h: Heuristic, init2: int): (int, int)
  {
    if h == ContactPointRule then (1, 0) else (IntMax, init2)
  }

  /** The chosen candidate, or the empty rectangle with the initial scores
      when nothing beats them. */
  function Chosen(cs: seq<Cand>, init1: int, init2: int): Cand
  {
    match Choose(cs, init1, init2)
    case None => Cand(Rect(0, 0, 0, 0), init1, init2)
    case Some(k) => cs[k]
  }

  /** One more candidate replaces the chosen one exactly when it is strictly
      better. */
  lemma {:induction false} ChosenStep(cs: seq<Cand>, c: Cand, init1: int, init2: int)
    ensures var b := Chosen(cs, init1, init2);
      Chosen(cs + [c], init1, init2) == if Better(c.s1, c.s2, b.s1, b.s2) then c else b
  {
    assert (cs + [c])[..|cs|] == cs;
  }

  /** `FindPositionForNewNode*`: the chosen node, or the empty rectangle when
      nothing fits, with the best scores (the initial ones when nothing fits). */
  function FindPosition(p: Packer, h: Heuristic, free: seq<Rect>, width: int, height: int, init2: int): Cand
  {
    var init := InitialScores(h, init2);
    Chosen(Candidates(p, h, free, width, height), init.0, init.1)
  }

  /** A found position (non-zero height) has the requested size, or the
      turned size only when turning is allowed, sits at the corner of a free
      rectangle and fits in it; and no candidate scores strictly better. */
  lemma {:induction false} FindPositionFits(p: Packer, h: Heuristic, free: seq<Rect>, width: int, height: int, init2: int)
    ensures var r := FindPosition(p, h, free, width, height, init2);
      r.node.height != 0 ==>
        ((r.node.width == width && r.node.height == height)
         || (p.allowRotations && r.node.width == height && r.node.height == width))
        && (exists k :: 0 <= k < |free| && r.node.x == free[k].x && r.node.y == free[k].y
                        && IsContainedIn(r.node, free[k]))
        && forall c :: c in Candidates(p, h, free, width, height) ==> !Better(c.s1, c.s2, r.s1, r.s2)
  {
    var cs := Candidates(p, h, free, width, height);
    var init := InitialScores(h, init2);
    CandidatesFit(p, h, free, width, height);
    match Choose(cs, init.0, init.1)
    case None =>
    case Some(k) =>
      assert cs[k] in cs;
  }

  /** What `ScoreRectangle` reports: the position and its scores, the
      contact score negated, and both scores `int.MaxValue` when nothing fits. */
  function ScoreOf(p: Packer, h: Heuristic, free: seq<Rect>, width: int, height: int): (r: (Rect, int, int))
    ensures r.0.height == 0 ==> r.1 == IntMax && r.2 == IntMax
    ensures r.0.height != 0 ==> r.0 == FindPosition(p, h, free, width, height, IntMax).node
  {
    var best := FindPosition(p, h, free, width, height, IntMax);
    if best.node.height == 0 then (best.node, IntMax, IntMax)
    else if h == ContactPointRule then (best.node, best.s1, IntMax)
    else (best.node, best.s1, best.s2)
  }

  /** A placement the list insert can choose (scores strictly below
      `int.MaxValue`, `int.MaxValue`) is a real position. */
  lemma {:induction false} ScoreOfFits(p: Packer, h: Heuristic, free: seq<Rect>, width: int, height: int)
    requires Better(ScoreOf(p, h, free, width, height).1, ScoreOf(p, h, free, width, height).2, IntMax, IntMax)
    ensures var node := ScoreOf(p, h, free, width, height).0;
      node.height != 0 && exists k :: 0 <= k < |free| && IsContainedIn(node, free[k])
  {
    FindPositionFits(p, h, free, width, height, IntMax);
  }

  /** Pruning keeps the packing invariant: it only drops free rectangles. */
  lemma {:induction false} PruneKeepsPacking(binWidth: int, binHeight: int, used: seq<Rect>, free: seq<Rect>, pruned: seq<Rect>)
    requires Packing(binWidth, binHeight, used, free)
    requires forall r :: r in pruned ==> r in free
    ensures Packing(binWidth, binHeight, used, pruned)
  {
  }

  /* ---------- pruning, on values ---------- */

  /** Neither rectangle lies in the other. */
  predicate Apart(a: Rect, b: Rect)
  {
    !IsContainedIn(a, b) && !IsContainedIn(b, a)
  }

  /** Every rectangle before index `i` is apart from every later one. */
  predicate PairsApart(free: seq<Rect>, i: int)
  {
    forall p, q :: 0 <= p < i && p < q < |free| ==> Apart(free[p], free[q])
  }

  /** Rectangle `i` is apart from those at indices `i+1 .. j-1`. */
  predicate ApartUpTo(free: seq<Rect>, i: int, j: int)
    requires 0 <= i < |free|
  {
    forall q :: i < q < j && q < |free| ==> Apart(free[i], free[q])
  }

  lemma {:induction false} PruneOfReflexive(free: seq<Rect>)
    ensures PruneOf(free, free)
  {
    forall f | f in free ensures Covered(f, free) {
      ContainedPreorder(f, f, f);
    }
  }

  lemma {:induction false} PruneOfTransitive(a: seq<Rect>, b: seq<Rect>, c: seq<Rect>)
    requires PruneOf(a, b) && PruneOf(b, c)
    ensures PruneOf(a, c)
  {
    forall f | f in c ensures Covered(f, a) {
      CoveredTransitive(f, b, a);
    }
  }

  lemma {:induction false} CoveredTransitive(f: Rect, b: seq<Rect>, a: seq<Rect>)
    requires Covered(f, b) && forall m :: m in b ==> Covered(m, a)
    ensures Covered(f, a)
  {
    var m :| m in b && IsContainedIn(f, m);
    var r :| r in a && IsContainedIn(m, r);
    ContainedPreorder(f, m, r);
  }

  /** Dropping a rectangle that lies in another one that stays prunes. */
  lemma {:induction false} RemoveContainedPrunes(free: seq<Rect>, k: int, m: int)
    requires 0 <= k < |free| && 0 <= m < |free| && k != m
    requires IsContainedIn(free[k], free[m])
    ensures PruneOf(free[..k] + free[k + 1..], free)
  {
    var rest := free[..k] + free[k + 1..];
    var keep := free[m];
    assert keep in rest by {
      if m < k {
        assert rest[m] == keep;
      } else {
        assert rest[m - 1] == keep;
      }
    }
    forall f | f in free ensures Covered(f, rest) {
      var idx :| 0 <= idx < |free| && free[idx] == f;
      ContainedPreorder(f, f, f);
      if idx < k {
        assert rest[idx] == f;
      } else if idx > k {
        assert rest[idx - 1] == f;
      }
    }
  }

  /** Removing index `k >= i` keeps the rectangles before `i` apart from the rest. */
  lemma {:induction false} RemoveKeepsApart(free: seq<Rect>, k: int, i: int)
    requires 0 <= i <= k < |free| && PairsApart(free, i)
    ensures PairsApart(free[..k] + free[k + 1..], i)
  {
    var rest := free[..k] + free[k + 1..];
    forall p, q | 0 <= p < i && p < q < |rest| ensures Apart(rest[p], rest[q]) {
      assert rest[p] == free[p];
      if q < k {
        assert rest[q] == free[q];
      } else {
        assert rest[q] == free[q + 1];
      }
    }
  }

  /** Removing index `j > i` keeps rectangle `i` apart from those before `j`. */
  lemma {:induction false} RemoveKeepsApartUpTo(free: seq<Rect>, i: int, j: int)
    requires 0 <= i < j < |free| && ApartUpTo(free, i, j)
    ensures ApartUpTo(free[..j] + free[j + 1..], i, j)
  {
    var rest := free[..j] + free[j + 1..];
    forall q | i < q < j && q < |rest| ensures Apart(rest[i], rest[q]) {
      assert rest[i] == free[i] && rest[q] == free[q];
    }
  }

  lemma {:induction false} ApartExtends(free: seq<Rect>, i: int)
    requires 0 <= i < |free| && PairsApart(free, i) && ApartUpTo(free, i, |free|)
    ensures PairsApart(free, i + 1)
  {
    forall p, q | 0 <= p < i + 1 && p < q < |free| ensures Apart(free[p], free[q]) {
      if p == i {
        assert i < q < |free|;
      }
    }
  }

  /** All pairs apart is `Pruned`. */
  lemma {:induction false} PairsApartPruned(free: seq<Rect>)
    requires PairsApart(free, |free|)
    ensures Pruned(free)
  {
    forall i, j | 0 <= i < |free| && 0 <= j < |free| && i != j ensures !IsContainedIn(free[i], free[j]) {
      if i < j {
        assert Apart(free[i], free[j]);
      } else {
        assert Apart(free[j], free[i]);
      }
    }
  }

  /* ---------- the split loop, on values ---------- */

  /** The free list part-way through `PlaceRectangle`'s split loop, after
      `k` of the original free rectangles: the kept ones, the ones still to
      process, then the pieces appended so far. */
  function SplitProgress(orig: seq<Rect>, k: int, node: Rect): seq<Rect>
    requires 0 <= k <= |orig|
  {
    Kept(orig[..k], node) + orig[k..] + Pieces(orig[..k], node)
  }

  /** One step of the split loop: append the pieces of rectangle `k`, then
      remove it when it overlapped the node. */
  lemma {:induction false} SplitStep(orig: seq<Rect>, k: int, node: Rect)
    requires 0 <= k < |orig|
    ensures |Kept(orig[..k], node)| < |SplitProgress(orig, k, node)|
    ensures SplitProgress(orig, k, node)[|Kept(orig[..k], node)|] == orig[k]
    ensures Overlaps(node, orig[k]) ==>
      RemoveAt(SplitProgress(orig, k, node) + SplitChildren(orig[k], node), |Kept(orig[..k], node)|)
      == SplitProgress(orig, k + 1, node)
    ensures !Overlaps(node, orig[k]) ==>
      SplitProgress(orig, k, node) + SplitChildren(orig[k], node) == SplitProgress(orig, k + 1, node)
    ensures |Kept(orig[..k + 1], node)| == |Kept(orig[..k], node)| + if Overlaps(node, orig[k]) then 0 else 1
  {
    UnfoldStep(orig, k, node);
    assert orig[k..] == [orig[k]] + orig[k + 1..];
    StepAlgebra(Kept(orig[..k], node), orig[k], orig[k + 1..], Pieces(orig[..k], node),
                SplitChildren(orig[k], node), Overlaps(node, orig[k]),
                Kept(orig[..k + 1], node), Pieces(orig[..k + 1], node));
  }

  /** The list algebra of one split step, on plain sequences. */
  lemma {:induction false} StepAlgebra(kept: seq<Rect>, x: Rect, rest: seq<Rect>, pieces: seq<Rect>, c: seq<Rect>,
                                       overlaps: bool, kept2: seq<Rect>, pieces2: seq<Rect>)
    requires kept2 == kept + (if overlaps then [] else [x])
    requires pieces2 == pieces + c
    ensures |kept| < |kept + ([x] + rest) + pieces|
    ensures (kept + ([x] + rest) + pieces)[|kept|] == x
    ensures overlaps ==> RemoveAt(kept + ([x] + rest) + pieces + c, |kept|) == kept2 + rest + pieces2
    ensures !overlaps ==> kept + ([x] + rest) + pieces + c == kept2 + rest + pieces2
    ensures |kept2| == |kept| + if overlaps then 0 else 1
  {
    var g := kept + ([x] + rest) + pieces + c;
    assert g == kept + [x] + (rest + pieces + c);
    if overlaps {
      RemoveMiddle(kept, x, rest + pieces + c);
      assert kept2 == kept;
      Regroup(kept, rest, pieces, c);
    }
  }

  lemma {:induction false} Regroup(a: seq<Rect>, b: seq<Rect>, c: seq<Rect>, d: seq<Rect>)
    ensures a + (b + c + d) == a + b + (c + d)
  {
  }

  lemma {:induction false} UnfoldStep(orig: seq<Rect>, k: int, node: Rect)
    requires 0 <= k < |orig|
    ensures Kept(orig[..k + 1], node)
      == Kept(orig[..k], node) + (if Overlaps(node, orig[k]) then [] else [orig[k]])
    ensures Pieces(orig[..k + 1], node) == Pieces(orig[..k], node) + SplitChildren(orig[k], node)
  {
    assert orig[..k + 1][..k] == orig[..k];
  }

  lemma {:induction false} RemoveMiddle(a: seq<Rect>, x: Rect, b: seq<Rect>)
    ensures |a| < |a + [x] + b| && RemoveAt(a + [x] + b, |a|) == a + b
  {
    var g := a + [x] + b;
    assert g[..|a|] == a;
    assert g[|a| + 1..] == b;
  }

  /** What `ScoreRectangle` reports for one rectangle of the list. */
  function ScoreCand(p: Packer, h: Heuristic, free: seq<Rect>, r: Rect): Cand
  {
    var s := ScoreOf(p, h, free, r.width, r.height);
    Cand(s.0, s.1, s.2)
  }

  function ScoreCands(p: Packer, h: Heuristic, free: seq<Rect>, rects: seq<Rect>): (cs: seq<Cand>)
    ensures |cs| == |rects|
  {
    seq(|rects|, i requires 0 <= i < |rects| => ScoreCand(p, h, free, rects[i]))
  }

  lemma {:induction false} ScoreCandsAt(p: Packer, h: Heuristic, free: seq<Rect>, rects: seq<Rect>, i: int)
    requires 0 <= i < |rects|
    ensures var s := ScoreOf(p, h, free, rects[i].width, rects[i].height);
      ScoreCands(p, h, free, rects)[i] == Cand(s.0, s.1, s.2)
  {
  }

  /** `List.RemoveAt`. */
  function RemoveAt(rs: seq<Rect>, index: int): (r: seq<Rect>)
    requires 0 <= index < |rs|
    ensures |r| == |rs| - 1
    ensures forall i :: 0 <= i < |r| ==> r[i] == if i < index then rs[i] else rs[i + 1]
  {
    rs[..index] + rs[index + 1..]
  }

  /** `RemoveAt` drops exactly one occurrence of the removed rectangle. */
  lemma {:induction false} RemoveAtMultiset(rs: seq<Rect>, index: int)
    requires 0 <= index < |rs|
    ensures multiset(RemoveAt(rs, index)) + multiset{rs[index]} == multiset(rs)
  {
    assert rs == rs[..index] + [rs[index]] + rs[index + 1..];
  }

  /** Placing a node that lies in a free rectangle, then pruning, keeps the
      packing invariant. */
  lemma {:induction false} PlaceKeepsPacking(binWidth: int, binHeight: int, used: seq<Rect>, free: seq<Rect>,
                                             node: Rect, pruned: seq<Rect>)
    requires Packing(binWidth, binHeight, used, free)
    requires exists j :: 0 <= j < |free| && IsContainedIn(node, free[j])
    requires PruneOf(pruned, SplitAll(free, node))
    ensures Packing(binWidth, binHeight, used + [node], pruned)
  {
    var j :| 0 <= j < |free| && IsContainedIn(node, free[j]);
    SplitKeepsPacking(binWidth, binHeight, used, free, node, j);
    PruneKeepsPacking(binWidth, binHeight, used + [node], SplitAll(free, node), pruned);
  }

  /** One more candidate in the scan of `Choose`. */
  lemma {:induction false} ChooseSnoc(cs: seq<Cand>, i: int, init1: int, init2: int)
    requires 0 <= i < |cs|
    ensures var prev := Choose(cs[..i], init1, init2);
      var b1 := if prev.Some? then cs[prev.value].s1 else init1;
      var b2 := if prev.Some? then cs[prev.value].s2 else init2;
      Choose(cs[..i + 1], init1, init2) == if Better(cs[i].s1, cs[i].s2, b1, b2) then Some(i) else prev
  {
    assert cs[..i + 1][..i] == cs[..i];
    var prev := Choose(cs[..i], init1, init2);
    if prev.Some? {
      assert cs[..i + 1][prev.value] == cs[prev.value];
    }
  }

  /** The state of the list insert's scan after `i` candidates. */
  predicate Scanned(cs: seq<Cand>, i: int, index: int, best1: int, best2: int)
    requires 0 <= i <= |cs|
  {
    if index == -1 then Choose(cs[..i], IntMax, IntMax).None? && best1 == IntMax && best2 == IntMax
    else Choose(cs[..i], IntMax, IntMax) == Some(index) && 0 <= index < i
         && best1 == cs[index].s1 && best2 == cs[index].s2
  }

  lemma {:induction false} ScanStep(cs: seq<Cand>, i: int, index: int, best1: int, best2: int)
    requires 0 <= i < |cs| && Scanned(cs, i, index, best1, best2)
    ensures Better(cs[i].s1, cs[i].s2, best1, best2) ==> Scanned(cs, i + 1, i, cs[i].s1, cs[i].s2)
    ensures !Better(cs[i].s1, cs[i].s2, best1, best2) ==> Scanned(cs, i + 1, index, best1, best2)
  {
    ChooseSnoc(cs, i, IntMax, IntMax);
  }

  /* ---------- the packer ---------- */

  class MaxRectanglesBinPack {
    var binWidth: int
    var binHeight: int
    var allowRotations: bool
    var usedRectangles: seq<Rect>
    var freeRectangles: seq<Rect>

    function Context(): Packer
      reads this
    {
      Packer(binWidth, binHeight, allowRotations, usedRectangles)
    }

    predicate Valid()
      reads this
    {
      Packing(binWidth, binHeight, usedRectangles, freeRectangles)
    }

    constructor (width: int, height: int, rotations: bool)
      ensures Valid()
      ensures binWidth == width && binHeight == height && allowRotations == rotations
      ensures usedRectangles == [] && freeRectangles == [Rect(0, 0, width, height)]
    {
      new;
      Init(width, height, rotations);
    }

    /** `Init`: an empty bin whose only free rectangle is the whole bin. */
    method Init(width: int, height: int, rotations: bool)
      modifies this
      ensures Valid()
      ensures binWidth == width && binHeight == height && allowRotations == rotations
      ensures usedRectangles == [] && freeRectangles == [Rect(0, 0, width, height)]
    {
      binWidth := width;
      binHeight := height;
      allowRotations := rotations;
      var n := Rect(0, 0, width, height);
      usedRectangles := [];
      freeRectangles := [];
      freeRectangles := freeRectangles + [n];
    }

    /** `ContactPointScoreNode`: the border contact, then one used rectangle
        at a time. */
    method ContactPointScoreNode(x: int, y: int, width: int, height: int) returns (score: int)
      ensures score == ContactScore(binWidth, binHeight, usedRectangles, x, y, width, height)
    {
      score := 0;
      if x == 0 || x + width == binWidth {
        score := score + height;
      }
      if y == 0 || y + height == binHeight {
        score := score + width;
      }
      ghost var base := score;
      var i := 0;
      while i < |usedRectangles|
        invariant 0 <= i <= |usedRectangles|
        invariant score == base + SumContacts(usedRectangles[..i], x, y, width, height)
      {
        var u := usedRectangles[i];
        SumContactsSnoc(usedRectangles, i, x, y, width, height);
        ghost var before := score;
        if u.x == x + width || u.x + u.width == x {
          score := score + CommonIntervalLength(u.y, u.y + u.height, y, y + height);
        }
        if u.y == y + height || u.y + u.height == y {
          score := score + CommonIntervalLength(u.x, u.x + u.width, x, x + width);
        }
        assert score == before + UsedContact(u, x, y, width, height);
        i := i + 1;
      }
      assert usedRectangles[..i] == usedRectangles;
    }

    /** The placement at the corner of free rectangle `f`, with its scores
        computed as the heuristic's loop computes them. */
    method Candidate(h: Heuristic, f: Rect, nw: int, nh: int, width: int, height: int) returns (c: Cand)
      ensures c == MakeCand(Context(), h, f, nw, nh, width, height)
    {
      if h == ContactPointRule {
        var score := ContactPointScoreNode(f.x, f.y, nw, nh);
        c := Cand(Rect(f.x, f.y, nw, nh), -score, 0);
      } else {
        c := MakeCand(Context(), h, f, nw, nh, width, height);
      }
    }

    /** One free rectangle of the `FindPositionForNewNode*` loops: the
        upright, then the turned placement, each replacing the best only on a
        strict improvement. */
    method ConsiderFree(h: Heuristic, f: Rect, width: int, height: int, init1: int, init2: int,
                        ghost cs: seq<Cand>, best0: Cand) returns (best: Cand)
      requires best0 == Chosen(cs, init1, init2)
      ensures best == Chosen(cs + CandsAt(Context(), h, f, width, height), init1, init2)
    {
      best := best0;
      ghost var seen := cs;
      if f.width >= width && f.height >= height {
        var c := Candidate(h, f, width, height, width, height);
        ChosenStep(seen, c, init1, init2);
        if Better(c.s1, c.s2, best.s1, best.s2) {
          best := c;
        }
        seen := seen + [c];
      }
      if allowRotations && f.width >= height && f.height >= width {
        var c := Candidate(h, f, height, width, width, height);
        ChosenStep(seen, c, init1, init2);
        if Better(c.s1, c.s2, best.s1, best.s2) {
          best := c;
        }
        seen := seen + [c];
      }
      assert seen == cs + CandsAt(Context(), h, f, width, height);
    }

    /** The five `FindPositionForNewNode*` loops over the free rectangles.
        `init2` is the caller's starting secondary score. */
    method FindPositionForNewNode(width: int, height: int, h: Heuristic, init2: int) returns (best: Cand)
      ensures best == FindPosition(Context(), h, freeRectangles, width, height, init2)
    {
      var init := InitialScores(h, init2);
      best := Cand(Rect(0, 0, 0, 0), init.0, init.1);
      var i := 0;
      while i < |freeRectangles|
        invariant 0 <= i <= |freeRectangles|
        invariant best == Chosen(Candidates(Context(), h, freeRectangles[..i], width, height), init.0, init.1)
      {
        assert freeRectangles[..i + 1][..i] == freeRectangles[..i];
        best := ConsiderFree(h, freeRectangles[i], width, height, init.0, init.1,
                             Candidates(Context(), h, freeRectangles[..i], width, height), best);
        i := i + 1;
      }
      assert freeRectangles[..i] == freeRectangles;
    }

    /** `ScoreRectangle`: the position with both scores starting at
        `int.MaxValue`, the contact score negated, and `int.MaxValue` for both
        when nothing fits. */
    method ScoreRectangle(width: int, height: int, h: Heuristic) returns (node: Rect, score1: int, score2: int)
      ensures (node, score1, score2) == ScoreOf(Context(), h, freeRectangles, width, height)
    {
      score1 := IntMax;
      score2 := IntMax;
      var best := FindPositionForNewNode(width, height, h, score2);
      node := best.node;
      score1 := best.s1;
      if h != ContactPointRule {
        score2 := best.s2;
      }
      if node.height == 0 {
        score1 := IntMax;
        score2 := IntMax;
      }
    }

    /** `SplitFreeNode`: false and nothing added when the rectangles do not
        overlap; otherwise the pieces of `freeNode` around `usedNode` are
        appended to the free list. */
    method SplitFreeNode(freeNode: Rect, usedNode: Rect) returns (split: bool)
      modifies this
      ensures split == Overlaps(usedNode, freeNode)
      ensures freeRectangles == old(freeRectangles) + SplitChildren(freeNode, usedNode)
      ensures usedRectangles == old(usedRectangles) && binWidth == old(binWidth)
      ensures binHeight == old(binHeight) && allowRotations == old(allowRotations)
    {
      if usedNode.x >= freeNode.x + freeNode.width || usedNode.x + usedNode.width <= freeNode.x
        || usedNode.y >= freeNode.y + freeNode.height || usedNode.y + usedNode.height <= freeNode.y
      {
        return false;
      }
      ghost var start := freeRectangles;
      if usedNode.x < freeNode.x + freeNode.width && usedNode.x + usedNode.width > freeNode.x {
        if usedNode.y > freeNode.y && usedNode.y < freeNode.y + freeNode.height {
          var newNode := freeNode.(height := usedNode.y - freeNode.y);
          freeRectangles := freeRectangles + [newNode];
        }
        if usedNode.y + usedNode.height < freeNode.y + freeNode.height {
          var newNode := freeNode.(y := usedNode.y + usedNode.height,
                                   height := freeNode.y + freeNode.height - (usedNode.y + usedNode.height));
          freeRectangles := freeRectangles + [newNode];
        }
      }
      if usedNode.y < freeNode.y + freeNode.height && usedNode.y + usedNode.height > freeNode.y {
        if usedNode.x > freeNode.x && usedNode.x < freeNode.x + freeNode.width {
          var newNode := freeNode.(width := usedNode.x - freeNode.x);
          freeRectangles := freeRectangles + [newNode];
        }
        if usedNode.x + usedNode.width < freeNode.x + freeNode.width {
          var newNode := freeNode.(x := usedNode.x + usedNode.width,
                                   width := freeNode.x + freeNode.width - (usedNode.x + usedNode.width));
          freeRectangles := freeRectangles + [newNode];
        }
      }
      split := true;
    }

    /** The split loop of `PlaceRectangle` (inlined again in `Insert`):
        every free rectangle the node overlaps is split, its pieces appended
        and the rectangle itself removed, stepping back one index. */
    method SplitFreeRectangles(node: Rect)
      modifies this
      ensures freeRectangles == SplitAll(old(freeRectangles), node)
      ensures usedRectangles == old(usedRectangles)
      ensures binWidth == old(binWidth) && binHeight == old(binHeight) && allowRotations == old(allowRotations)
    {
      ghost var orig := freeRectangles;
      ghost var k := 0;
      var numToProcess := |freeRectangles|;
      var i := 0;
      assert orig[..0] == [] && orig[0..] == orig;
      while i < numToProcess
        invariant 0 <= k <= |orig| && 0 <= i <= numToProcess
        invariant numToProcess - i == |orig| - k
        invariant i == |Kept(orig[..k], node)|
        invariant freeRectangles == SplitProgress(orig, k, node)
        invariant usedRectangles == old(usedRectangles) && binWidth == old(binWidth)
        invariant binHeight == old(binHeight) && allowRotations == old(allowRotations)
      {
        var split := SplitAndRemove(node, i, orig, k);
        if split {
          i := i - 1;
          numToProcess := numToProcess - 1;
        }
        i := i + 1;
        k := k + 1;
      }
      assert orig[..k] == orig && orig[k..] == [];
    }

    /** One iteration of the split loop: `SplitFreeNode` on rectangle `i`,
        then `RemoveAt(i)` when it reports a split. */
    method SplitAndRemove(node: Rect, i: int, ghost orig: seq<Rect>, ghost k: int) returns (split: bool)
      requires 0 <= k < |orig| && i == |Kept(orig[..k], node)|
      requires freeRectangles == SplitProgress(orig, k, node)
      modifies this
      ensures freeRectangles == SplitProgress(orig, k + 1, node)
      ensures |Kept(orig[..k + 1], node)| == if split then i else i + 1
      ensures usedRectangles == old(usedRectangles) && binWidth == old(binWidth)
      ensures binHeight == old(binHeight) && allowRotations == old(allowRotations)
    {
      SplitStep(orig, k, node);
      split := SplitFreeNode(freeRectangles[i], node);
      if split {
        freeRectangles := RemoveAt(freeRectangles, i);
      }
    }

    /** `PlaceRectangle`: split, prune, then record the node as used. A node
        that lies in a free rectangle of a valid packer leaves it valid. */
    method PlaceRectangle(node: Rect)
      modifies this
      ensures usedRectangles == old(usedRectangles) + [node]
      ensures PruneOf(freeRectangles, SplitAll(old(freeRectangles), node)) && Pruned(freeRectangles)
      ensures binWidth == old(binWidth) && binHeight == old(binHeight) && allowRotations == old(allowRotations)
      ensures old(Valid()) && (exists k :: 0 <= k < |old(freeRectangles)| && IsContainedIn(node, old(freeRectangles)[k]))
              ==> Valid()
    {
      ghost var orig := freeRectangles;
      ghost var used := usedRectangles;
      ghost var fits := Valid() && exists j :: 0 <= j < |orig| && IsContainedIn(node, orig[j]);
      SplitFreeRectangles(node);
      PruneFreeList();
      usedRectangles := usedRectangles + [node];
      if fits {
        PlaceKeepsPacking(binWidth, binHeight, used, orig, node, freeRectangles);
      }
    }

    /** `Insert(width, height, method)`: the position the heuristic finds
        (secondary score starting at 0); nothing changes when it has zero
        height, otherwise it is placed. */
    method Insert(width: int, height: int, h: Heuristic) returns (node: Rect)
      modifies this
      ensures node == FindPosition(old(Context()), h, old(freeRectangles), width, height, 0).node
      ensures node.height == 0 ==> usedRectangles == old(usedRectangles) && freeRectangles == old(freeRectangles)
      ensures node.height != 0 ==>
        ((node.width == width && node.height == height)
         || (allowRotations && node.width == height && node.height == width))
        && usedRectangles == old(usedRectangles) + [node]
        && PruneOf(freeRectangles, SplitAll(old(freeRectangles), node)) && Pruned(freeRectangles)
      ensures binWidth == old(binWidth) && binHeight == old(binHeight) && allowRotations == old(allowRotations)
      ensures old(Valid()) ==> Valid()
    {
      var best := FindPositionForNewNode(width, height, h, 0);
      node := best.node;
      if node.height == 0 {
        return;
      }
      FindPositionFits(Context(), h, freeRectangles, width, height, 0);
      PlaceRectangle(node);
    }

    /** The scores the list insert compares, one per remaining rectangle. */
    function ListScores(h: Heuristic, rects: seq<Rect>): seq<Cand>
      reads this
    {
      ScoreCands(Context(), h, freeRectangles, rects)
    }

    /** The inner loop of the list `Insert`: the index of the rectangle with
        the strictly best scores below (`int.MaxValue`, `int.MaxValue`), or -1. */
    method PickRectangle(rects: seq<Rect>, h: Heuristic) returns (index: int, bestNode: Rect)
      ensures index == -1 <==> Choose(ListScores(h, rects), IntMax, IntMax).None?
      ensures index != -1 ==> Choose(ListScores(h, rects), IntMax, IntMax) == Some(index)
                              && bestNode == ListScores(h, rects)[index].node
    {
      ghost var cs := ListScores(h, rects);
      var best1 := IntMax;
      var best2 := IntMax;
      index := -1;
      bestNode := Rect(0, 0, 0, 0);
      var i := 0;
      while i < |rects|
        invariant 0 <= i <= |rects|
        invariant Scanned(cs, i, index, best1, best2)
        invariant index != -1 ==> bestNode == cs[index].node
      {
        index, best1, best2, bestNode := ScanRectangle(rects, h, i, index, best1, best2, bestNode);
        i := i + 1;
      }
      assert cs[..i] == cs;
    }

    /** One turn of the inner loop of the list `Insert`: scores rectangle `i`
        and keeps it when it strictly beats the best so far. */
    method ScanRectangle(rects: seq<Rect>, h: Heuristic, i: int, index: int, best1: int, best2: int, bestNode: Rect)
      returns (index': int, best1': int, best2': int, bestNode': Rect)
      requires 0 <= i < |rects| && Scanned(ListScores(h, rects), i, index, best1, best2)
      requires index != -1 ==> bestNode == ListScores(h, rects)[index].node
      ensures Scanned(ListScores(h, rects), i + 1, index', best1', best2')
      ensures index' != -1 ==> bestNode' == ListScores(h, rects)[index'].node
    {
      ghost var cs := ListScores(h, rects);
      var newNode, score1, score2 := ScoreRectangle(rects[i].width, rects[i].height, h);
      assert cs[i] == Cand(newNode, score1, score2) by {
        ScoreCandsAt(Context(), h, freeRectangles, rects, i);
      }
      ScanStep(cs, i, index, best1, best2);
      if Better(score1, score2, best1, best2) {
        index', best1', best2', bestNode' := i, score1, score2, newNode;
      } else {
        index', best1', best2', bestNode' := index, best1, best2, bestNode;
      }
    }

    /** One turn of the list `Insert`: the best-scoring rectangle of
        `rects` placed, or nothing changed when none fits (`index == -1`). */
    method PlaceBest(rects: seq<Rect>, h: Heuristic) returns (index: int, bestNode: Rect)
      modifies this
      ensures index == -1 <==> old(Choose(ListScores(h, rects), IntMax, IntMax)).None?
      ensures index == -1 ==> unchanged(this) && Choose(ListScores(h, rects), IntMax, IntMax).None?
      ensures index != -1 ==>
        old(Choose(ListScores(h, rects), IntMax, IntMax)) == Some(index) && 0 <= index < |rects|
        && bestNode == old(ListScores(h, rects))[index].node && usedRectangles == old(usedRectangles) + [bestNode]
      ensures binWidth == old(binWidth) && binHeight == old(binHeight) && allowRotations == old(allowRotations)
      ensures old(Valid()) ==> Valid()
    {
      index, bestNode := PickRectangle(rects, h);
      if index == -1 {
        return;
      }
      PickedFits(rects, h, index);
      PlaceRectangle(bestNode);
    }

    /** The list `Insert` as written: places the best-scoring rectangle and
        removes it from `rects` until none fits, but `dst` is cleared and
        never filled, so the placed rectangles are not reported. */
    method InsertList(rects: seq<Rect>, h: Heuristic) returns (remaining: seq<Rect>, dst: seq<Rect>)
      modifies this
      ensures dst == []
      ensures remaining != [] ==> Choose(ListScores(h, remaining), IntMax, IntMax).None?
      ensures |remaining| <= |rects|
      ensures |usedRectangles| == |old(usedRectangles)| + |rects| - |remaining|
      ensures usedRectangles[..|old(usedRectangles)|] == old(usedRectangles)
      ensures multiset(remaining) <= multiset(rects)
      ensures binWidth == old(binWidth) && binHeight == old(binHeight) && allowRotations == old(allowRotations)
      ensures old(Valid()) ==> Valid()
    {
      dst := [];
      remaining := rects;
      while |remaining| > 0
        invariant |remaining| <= |rects|
        invariant |usedRectangles| == |old(usedRectangles)| + |rects| - |remaining|
        invariant usedRectangles[..|old(usedRectangles)|] == old(usedRectangles)
        invariant multiset(remaining) <= multiset(rects)
        invariant binWidth == old(binWidth) && binHeight == old(binHeight) && allowRotations == old(allowRotations)
        invariant old(Valid()) ==> Valid()
        decreases |remaining|
      {
        var index, bestNode := PlaceBest(remaining, h);
        if index == -1 {
          return;
        }
        RemoveAtMultiset(remaining, index);
        remaining := RemoveAt(remaining, index);
      }
    }

    /** The list `Insert` with the placed rectangles reported in `dst`, in
        placement order. */
    method InsertListReporting(rects: seq<Rect>, h: Heuristic) returns (remaining: seq<Rect>, dst: seq<Rect>)
      modifies this
      ensures usedRectangles == old(usedRectangles) + dst
      ensures remaining != [] ==> Choose(ListScores(h, remaining), IntMax, IntMax).None?
      ensures |dst| == |rects| - |remaining|
      ensures multiset(remaining) <= multiset(rects)
      ensures binWidth == old(binWidth) && binHeight == old(binHeight) && allowRotations == old(allowRotations)
      ensures old(Valid()) ==> Valid()
    {
      dst := [];
      remaining := rects;
      while |remaining| > 0
        invariant usedRectangles == old(usedRectangles) + dst
        invariant |dst| == |rects| - |remaining|
        invariant multiset(remaining) <= multiset(rects)
        invariant binWidth == old(binWidth) && binHeight == old(binHeight) && allowRotations == old(allowRotations)
        invariant old(Valid()) ==> Valid()
        decreases |remaining|
      {
        var index, bestNode := PlaceBest(remaining, h);
        if index == -1 {
          return;
        }
        dst := dst + [bestNode];
        RemoveAtMultiset(remaining, index);
        remaining := RemoveAt(remaining, index);
      }
    }

    /** The picked rectangle has a real position inside a free rectangle. */
    lemma {:induction false} PickedFits(rects: seq<Rect>, h: Heuristic, index: int)
      requires 0 <= index < |rects| && Choose(ListScores(h, rects), IntMax, IntMax) == Some(index)
      ensures var node := ListScores(h, rects)[index].node;
        node.height != 0 && exists k :: 0 <= k < |freeRectangles| && IsContainedIn(node, freeRectangles[k])
    {
      assert ListScores(h, rects)[index] == ScoreCand(Context(), h, freeRectangles, rects[index]);
      ScoreOfFits(Context(), h, freeRectangles, rects[index].width, rects[index].height);
    }

    /** `PruneFreeList`: removes every free rectangle contained in another,
        stepping back after each removal as the source does. */
    method PruneFreeList()
      modifies this
      ensures PruneOf(freeRectangles, old(freeRectangles)) && Pruned(freeRectangles)
      ensures usedRectangles == old(usedRectangles) && binWidth == old(binWidth)
      ensures binHeight == old(binHeight) && allowRotations == old(allowRotations)
    {
      PruneOfReflexive(freeRectangles);
      var i := 0;
      while i < |freeRectangles|
        invariant 0 <= i <= |freeRectangles|
        invariant PruneOf(freeRectangles, old(freeRectangles))
        invariant PairsApart(freeRectangles, i)
        invariant usedRectangles == old(usedRectangles) && binWidth == old(binWidth)
        invariant binHeight == old(binHeight) && allowRotations == old(allowRotations)
        decreases |freeRectangles| - i
      {
        ghost var before := freeRectangles;
        var removedI := PruneAgainst(i);
        PruneOfTransitive(freeRectangles, before, old(freeRectangles));
        if !removedI {
          ApartExtends(freeRectangles, i);
          i := i + 1;
        }
      }
      PairsApartPruned(freeRectangles);
    }

    /** The inner loop of `PruneFreeList` for rectangle `i`: every later
        rectangle inside it is removed, until `i` itself turns out to lie in
        a later one and is removed (`removedI`). */
    method PruneAgainst(i: int) returns (removedI: bool)
      requires 0 <= i < |freeRectangles| && PairsApart(freeRectangles, i)
      modifies this
      ensures PruneOf(freeRectangles, old(freeRectangles)) && PairsApart(freeRectangles, i)
      ensures removedI ==> i <= |freeRectangles| < |old(freeRectangles)|
      ensures !removedI ==> i < |freeRectangles| <= |old(freeRectangles)| && ApartUpTo(freeRectangles, i, |freeRectangles|)
      ensures usedRectangles == old(usedRectangles) && binWidth == old(binWidth)
      ensures binHeight == old(binHeight) && allowRotations == old(allowRotations)
    {
      PruneOfReflexive(freeRectangles);
      var j := i + 1;
      while j < |freeRectangles|
        invariant i < j <= |freeRectangles| <= |old(freeRectangles)|
        invariant PruneOf(freeRectangles, old(freeRectangles))
        invariant PairsApart(freeRectangles, i) && ApartUpTo(freeRectangles, i, j)
        invariant usedRectangles == old(usedRectangles) && binWidth == old(binWidth)
        invariant binHeight == old(binHeight) && allowRotations == old(allowRotations)
        decreases |freeRectangles| - j
      {
        ghost var before := freeRectangles;
        if IsContainedIn(freeRectangles[i], freeRectangles[j]) {
          RemoveContained(i, j);
          RemoveKeepsApart(before, i, i);
          PruneOfTransitive(freeRectangles, before, old(freeRectangles));
          return true;
        }
        if IsContainedIn(freeRectangles[j], freeRectangles[i]) {
          RemoveContained(j, i);
          RemoveKeepsApart(before, j, i);
          RemoveKeepsApartUpTo(before, i, j);
          PruneOfTransitive(freeRectangles, before, old(freeRectangles));
        } else {
          j := j + 1;
        }
      }
      removedI := false;
    }

    /** `RemoveAt(k)` on the free list, where rectangle k lies in rectangle m. */
    method RemoveContained(k: int, m: int)
      requires 0 <= k < |freeRectangles| && 0 <= m < |freeRectangles| && k != m
      requires IsContainedIn(freeRectangles[k], freeRectangles[m])
      modifies this
      ensures freeRectangles == old(freeRectangles[..k] + freeRectangles[k + 1..])
      ensures PruneOf(freeRectangles, old(freeRectangles))
      ensures usedRectangles == old(usedRectangles) && binWidth == old(binWidth)
      ensures binHeight == old(binHeight) && allowRotations == old(allowRotations)
    {
      RemoveContainedPrunes(freeRectangles, k, m);
      freeRectangles := freeRectangles[..k] + freeRectangles[k + 1..];
    }
  }
}
