/**
 * The octree (`octree.rs`): index buffers are distributed over the eight
 * sub-boxes of a box, down to a leaf-size and a depth limit, and a query
 * visits the children in order with the narrowed ray, the last child result
 * present winning.
 */
module Octrees {
  import opened Wrappers
  import opened ExtReal
  import opened Vectors
  import opened Rays
  import opened Bounds
  import opened Acceleration

  const MAX_DEPTH: nat := 4
  const MAX_LEAF_SIZE: nat := 32

  /** `Bounds3::sub_bounds` (not part of this model): the `i`-th of the eight sub-boxes of a box. */
  type SubBounds = (Bounds3, nat) -> Bounds3

  /** A node: a leaf holding an index buffer, or eight optional children. */
  datatype ONode = OLeaf(bounds: Bounds3, indices: seq<nat>) | OInterior(bounds: Bounds3, children: seq<Option<ONode>>)

  predicate IndicesIn(idx: seq<nat>, n: nat) {
    forall k :: 0 <= k < |idx| ==> idx[k] < n
  }

  /** The shapes an index buffer names, in buffer order. */
  function Pick(shapes: seq<Shape>, idx: seq<nat>): (r: seq<Shape>)
    requires IndicesIn(idx, |shapes|)
    ensures |r| == |idx| && forall k :: 0 <= k < |idx| ==> r[k] == shapes[idx[k]]
  {
    seq(|idx|, k requires 0 <= k < |idx| => shapes[idx[k]])
  }

  /** `0, 1, ..., n - 1`: the root's index buffer. */
  function Range(n: nat): (r: seq<nat>)
    ensures |r| == n && forall k :: 0 <= k < n ==> r[k] == k
  {
    seq(n, k => k)
  }

  /**
   * The buffer of a child box: the indices of `idx` whose shape bounds
   * overlap `box`, in the order of `idx`.
   */
  function Filter(shapes: seq<Shape>, idx: seq<nat>, box: Bounds3): (r: seq<nat>)
    requires IndicesIn(idx, |shapes|)
    ensures IndicesIn(r, |shapes|) && |r| <= |idx|
  {
    if |idx| == 0 then []
    else
      var init := Filter(shapes, idx[..|idx| - 1], box);
      var x := idx[|idx| - 1];
      if Overlaps(shapes[x].bounds, box) then init + [x] else init
  }

  /** An index is kept exactly when it is in the buffer and its shape overlaps the box. */
  lemma {:induction false} FilterMembers(shapes: seq<Shape>, idx: seq<nat>, box: Bounds3, i: nat)
    requires IndicesIn(idx, |shapes|)
    ensures i in Filter(shapes, idx, box) <==> i in idx && i < |shapes| && Overlaps(shapes[i].bounds, box)
  {
    if |idx| > 0 {
      var init := idx[..|idx| - 1];
      FilterMembers(shapes, init, box, i);
      assert idx == init + [idx[|idx| - 1]];
    }
  }

  /** The termination measure of the build: the depth levels left before the forced leaf. */
  function Levels(depth: nat): nat {
    if depth <= MAX_DEPTH then MAX_DEPTH + 1 - depth else 0
  }

  /**
   * `recursively_build(b, idx, depth)`: nothing for an empty buffer; a node
   * whose bounds is the union of its own shapes' bounds; a leaf for at most
   * 32 indices or beyond depth 4; otherwise eight children built one level
   * deeper from the sub-boxes of the parameter box `b` and the filtered
   * buffers.
   */
  function BuildNode(shapes: seq<Shape>, sub: SubBounds, b: Bounds3, idx: seq<nat>, depth: nat): (r: Option<ONode>)
    requires IndicesIn(idx, |shapes|)
    ensures r.None? <==> |idx| == 0
    decreases Levels(depth)
  {
    if |idx| == 0 then None
    else
      var box := ArrBounds(BoundsOf(Pick(shapes, idx)));
      if |idx| <= MAX_LEAF_SIZE || depth > MAX_DEPTH then Some(OLeaf(box, idx))
      else Some(OInterior(box, seq(8, i requires 0 <= i < 8 =>
                                     BuildNode(shapes, sub, sub(b, i), Filter(shapes, idx, sub(b, i)), depth + 1))))
  }

  // ------------------------------------------------------------- structure

  /** Leaves hold non-empty buffers of valid indices (a leaf reads `shapes[0]`). */
  predicate ValidNode(n: ONode, count: nat)
    decreases n
  {
    match n
    case OLeaf(_, idx) => |idx| > 0 && IndicesIn(idx, count)
    case OInterior(_, ch) => forall k :: 0 <= k < |ch| && ch[k].Some? ==> ValidNode(ch[k].value, count)
  }

  /** At most `h` levels of interior nodes lie above any leaf. */
  predicate HeightAtMost(n: ONode, h: nat)
    decreases n
  {
    match n
    case OLeaf(_, _) => true
    case OInterior(_, ch) => h > 0 && forall k :: 0 <= k < |ch| && ch[k].Some? ==> HeightAtMost(ch[k].value, h - 1)
  }

  /**
   * A built node has valid leaves, eight children at every interior node,
   * and at most `Levels(depth)` interior levels: from the root at depth 0,
   * leaves sit at depth 5 or less.
   */
  lemma {:induction false} BuildShape(shapes: seq<Shape>, sub: SubBounds, b: Bounds3, idx: seq<nat>, depth: nat)
    requires IndicesIn(idx, |shapes|)
    ensures var r := BuildNode(shapes, sub, b, idx, depth);
      r.Some? ==> ValidNode(r.value, |shapes|) && HeightAtMost(r.value, Levels(depth))
                  && (r.value.OInterior? ==> |r.value.children| == 8)
    decreases Levels(depth)
  {
    if |idx| > MAX_LEAF_SIZE && depth <= MAX_DEPTH {
      forall i | 0 <= i < 8
        ensures var c := BuildNode(shapes, sub, sub(b, i), Filter(shapes, idx, sub(b, i)), depth + 1);
          c.Some? ==> ValidNode(c.value, |shapes|) && HeightAtMost(c.value, Levels(depth) - 1)
      {
        BuildShape(shapes, sub, sub(b, i), Filter(shapes, idx, sub(b, i)), depth + 1);
      }
    }
  }

  // ------------------------------------------------------------- traversal

  /**
   * `get_intersection`: a failed box test gives nothing, a leaf scans its
   * buffer in order, and an interior node visits its children in order.
   */
  function OTraverse(node: ONode, shapes: seq<Shape>, hit: HitOracle, s: RayState): ScanState
    requires ValidNode(node, |shapes|)
    decreases node, 1, 0
  {
    if !SlabHit(node.bounds, s) then ScanState(None, s)
    else match node
      case OLeaf(_, idx) => Scan(Pick(shapes, idx), hit, s)
      case OInterior(_, ch) => ChildrenScan(node, |ch|, shapes, hit, s)
  }

  /**
   * The first `k` children visited in order, each with the ray the previous
   * ones left; absent children are skipped and the last result present wins.
   */
  function ChildrenScan(node: ONode, k: nat, shapes: seq<Shape>, hit: HitOracle, s: RayState): ScanState
    requires node.OInterior? && ValidNode(node, |shapes|) && k <= |node.children|
    decreases node, 0, k
  {
    if k == 0 then ScanState(None, s)
    else
      var acc := ChildrenScan(node, k - 1, shapes, hit, s);
      var c := node.children[k - 1];
      if c.None? then acc else Combine(acc, OTraverse(c.value, shapes, hit, acc.ray))
  }

  /** The shapes of all leaves under `node`, leaf by leaf in visiting order. */
  function Flatten(node: ONode, shapes: seq<Shape>): seq<Shape>
    requires ValidNode(node, |shapes|)
    decreases node, 1, 0
  {
    match node
    case OLeaf(_, idx) => Pick(shapes, idx)
    case OInterior(_, ch) => FlattenChildren(node, |ch|, shapes)
  }

  function FlattenChildren(node: ONode, k: nat, shapes: seq<Shape>): seq<Shape>
    requires node.OInterior? && ValidNode(node, |shapes|) && k <= |node.children|
    decreases node, 0, k
  {
    if k == 0 then []
    else
      var c := node.children[k - 1];
      FlattenChildren(node, k - 1, shapes) + (if c.None? then [] else Flatten(c.value, shapes))
  }

  /** Every node's box contains the bounds of every shape in the leaves below it. */
  ghost predicate Contained(node: ONode, shapes: seq<Shape>)
    requires ValidNode(node, |shapes|)
    decreases node
  {
    && (forall x :: x in Flatten(node, shapes) ==> ContainsBox(node.bounds, x.bounds))
    && (node.OInterior? ==>
          forall k :: 0 <= k < |node.children| && node.children[k].Some? ==> Contained(node.children[k].value, shapes))
  }

  /**
   * When hits lie inside shape bounds, traversing a node is scanning all the
   * shapes of its leaves in visiting order: a box test can only fail where
   * none of them has a hit left in the window.
   */
  lemma {:induction false} TraverseIsScan(node: ONode, shapes: seq<Shape>, hit: HitOracle, s0: RayState,
                                          cand: Shape -> Option<PrimHit>, tm: real)
    requires ValidNode(node, |shapes|) && Contained(node, shapes)
    requires WindowOracle(hit, s0, cand) && HitsInsideBounds(cand, s0)
    ensures OTraverse(node, shapes, hit, s0.(tMax := tm)) == Scan(Flatten(node, shapes), hit, s0.(tMax := tm))
    decreases node, 1, 0
  {
    var s := s0.(tMax := tm);
    var list := Flatten(node, shapes);
    if !SlabHit(node.bounds, s) {
      forall j | 0 <= j < |list| ensures ContainsBox(node.bounds, list[j].bounds) {
        assert list[j] in list;
      }
      ScanMissesOutsideBox(list, hit, s0, cand, tm, node.bounds);
    } else if node.OInterior? {
      ChildrenIsScan(node, |node.children|, shapes, hit, s0, cand, tm);
    }
  }

  lemma {:induction false} ChildrenIsScan(node: ONode, k: nat, shapes: seq<Shape>, hit: HitOracle, s0: RayState,
                                          cand: Shape -> Option<PrimHit>, tm: real)
    requires node.OInterior? && ValidNode(node, |shapes|) && Contained(node, shapes) && k <= |node.children|
    requires WindowOracle(hit, s0, cand) && HitsInsideBounds(cand, s0)
    ensures ChildrenScan(node, k, shapes, hit, s0.(tMax := tm)) == Scan(FlattenChildren(node, k, shapes), hit, s0.(tMax := tm))
    decreases node, 0, k
  {
    var s := s0.(tMax := tm);
    if k > 0 {
      ChildrenIsScan(node, k - 1, shapes, hit, s0, cand, tm);
      var acc := ChildrenScan(node, k - 1, shapes, hit, s);
      var l1 := FlattenChildren(node, k - 1, shapes);
      var c := node.children[k - 1];
      if c.None? {
        assert FlattenChildren(node, k, shapes) == l1 + [];
        assert l1 + [] == l1;
      } else {
        assert acc.ray == s0.(tMax := acc.ray.tMax);
        TraverseIsScan(c.value, shapes, hit, s0, cand, acc.ray.tMax);
        ScanAppend(l1, Flatten(c.value, shapes), hit, s);
      }
    }
  }

  // ------------------------------------------------------ what a build holds

  /** A shape is below the first `k` children iff it is below one of them. */
  lemma {:induction false} FlattenChildrenMembers(node: ONode, k: nat, shapes: seq<Shape>, x: Shape)
    requires node.OInterior? && ValidNode(node, |shapes|) && k <= |node.children|
    ensures x in FlattenChildren(node, k, shapes) <==>
      exists j :: 0 <= j < k && node.children[j].Some? && x in Flatten(node.children[j].value, shapes)
    decreases k
  {
    if k > 0 {
      FlattenChildrenMembers(node, k - 1, shapes, x);
      var c := node.children[k - 1];
      var tail := if c.None? then [] else Flatten(c.value, shapes);
      var init := FlattenChildren(node, k - 1, shapes);
      assert FlattenChildren(node, k, shapes) == init + tail;
      assert x in init + tail <==> x in init || x in tail;
      if x in tail {
        assert node.children[k - 1].Some? && x in Flatten(node.children[k - 1].value, shapes);
      }
      if j :| 0 <= j < k && node.children[j].Some? && x in Flatten(node.children[j].value, shapes) {
        if j == k - 1 {
          assert x in tail;
        } else {
          assert x in init;
        }
      }
    }
  }

  /** Every shape in the leaves of a built node comes from the node's own buffer. */
  lemma {:induction false} BuildFlattenWithin(shapes: seq<Shape>, sub: SubBounds, b: Bounds3, idx: seq<nat>, depth: nat, x: Shape)
    requires IndicesIn(idx, |shapes|) && |idx| > 0
    ensures var r := BuildNode(shapes, sub, b, idx, depth);
      ValidNode(r.value, |shapes|) && (x in Flatten(r.value, shapes) ==> x in Pick(shapes, idx))
    decreases Levels(depth), 2
  {
    BuildShape(shapes, sub, b, idx, depth);
    if |idx| > MAX_LEAF_SIZE && depth <= MAX_DEPTH {
      InteriorFlattenWithin(shapes, sub, b, idx, depth, x);
    }
  }

  /** The interior case of `BuildFlattenWithin`: a shape below some child passed that child's filter. */
  lemma {:induction false} InteriorFlattenWithin(shapes: seq<Shape>, sub: SubBounds, b: Bounds3, idx: seq<nat>, depth: nat, x: Shape)
    requires IndicesIn(idx, |shapes|) && |idx| > MAX_LEAF_SIZE && depth <= MAX_DEPTH
    ensures var r := BuildNode(shapes, sub, b, idx, depth);
      ValidNode(r.value, |shapes|) && (x in Flatten(r.value, shapes) ==> x in Pick(shapes, idx))
    decreases Levels(depth), 1
  {
    BuildShape(shapes, sub, b, idx, depth);
    var r := BuildNode(shapes, sub, b, idx, depth).value;
    if x in Flatten(r, shapes) {
      FlattenChildrenMembers(r, 8, shapes, x);
      var j :| 0 <= j < 8 && r.children[j].Some? && x in Flatten(r.children[j].value, shapes);
      BuildChild(shapes, sub, b, idx, depth, j);
      ChildFlattenWithin(shapes, sub, b, idx, depth, j, x);
    }
  }

  /** A shape below the `j`-th child of a built interior node is in the parent's buffer. */
  lemma {:induction false} ChildFlattenWithin(shapes: seq<Shape>, sub: SubBounds, b: Bounds3, idx: seq<nat>, depth: nat, j: nat, x: Shape)
    requires IndicesIn(idx, |shapes|) && depth <= MAX_DEPTH
    ensures var c := BuildNode(shapes, sub, sub(b, j), Filter(shapes, idx, sub(b, j)), depth + 1);
      c.Some? ==> ValidNode(c.value, |shapes|) && (x in Flatten(c.value, shapes) ==> x in Pick(shapes, idx))
    decreases Levels(depth), 0
  {
    var cidx := Filter(shapes, idx, sub(b, j));
    if |cidx| > 0 {
      assert Levels(depth + 1) < Levels(depth);
      BuildFlattenWithin(shapes, sub, sub(b, j), cidx, depth + 1, x);
      PickFilter(shapes, idx, sub(b, j), x);
    }
  }

  /** The `j`-th child of a built interior node is built from the `j`-th sub-box and its filtered buffer. */
  lemma BuildChild(shapes: seq<Shape>, sub: SubBounds, b: Bounds3, idx: seq<nat>, depth: nat, j: nat)
    requires IndicesIn(idx, |shapes|) && |idx| > MAX_LEAF_SIZE && depth <= MAX_DEPTH && j < 8
    ensures var r := BuildNode(shapes, sub, b, idx, depth);
      && r.Some? && r.value.OInterior? && |r.value.children| == 8
      && r.value.children[j] == BuildNode(shapes, sub, sub(b, j), Filter(shapes, idx, sub(b, j)), depth + 1)
  {
  }

  /** Filtering a buffer only drops shapes. */
  lemma PickFilter(shapes: seq<Shape>, idx: seq<nat>, box: Bounds3, x: Shape)
    requires IndicesIn(idx, |shapes|)
    ensures x in Pick(shapes, Filter(shapes, idx, box)) ==> x in Pick(shapes, idx)
  {
    var cidx := Filter(shapes, idx, box);
    if x in Pick(shapes, cidx) {
      var p :| 0 <= p < |cidx| && Pick(shapes, cidx)[p] == x;
      FilterMembers(shapes, idx, box, cidx[p]);
      var q :| 0 <= q < |idx| && idx[q] == cidx[p];
      assert Pick(shapes, idx)[q] == x;
    }
  }

  /** The bounds of a built node contain every shape below it, at every level. */
  lemma {:induction false} BuildContained(shapes: seq<Shape>, sub: SubBounds, b: Bounds3, idx: seq<nat>, depth: nat)
    requires IndicesIn(idx, |shapes|) && |idx| > 0
    ensures var r := BuildNode(shapes, sub, b, idx, depth);
      ValidNode(r.value, |shapes|) && Contained(r.value, shapes)
    decreases Levels(depth)
  {
    BuildShape(shapes, sub, b, idx, depth);
    var r := BuildNode(shapes, sub, b, idx, depth).value;
    var own := Pick(shapes, idx);
    forall x | x in Flatten(r, shapes) ensures ContainsBox(r.bounds, x.bounds) {
      BuildFlattenWithin(shapes, sub, b, idx, depth, x);
      var p :| 0 <= p < |own| && own[p] == x;
      assert BoundsOf(own)[p] == x.bounds;
    }
    if |idx| > MAX_LEAF_SIZE && depth <= MAX_DEPTH {
      forall j | 0 <= j < 8 && r.children[j].Some? ensures Contained(r.children[j].value, shapes) {
        BuildContained(shapes, sub, sub(b, j), Filter(shapes, idx, sub(b, j)), depth + 1);
      }
    }
  }

  /**
   * The eight sub-boxes cover their box: a box that overlaps it overlaps one
   * of them. `sub_bounds` is not part of this model; this is what a octant
   * split of the box provides.
   */
  ghost predicate Covers(sub: SubBounds) {
    forall b: Bounds3, x: Bounds3 :: CoversAt(sub, b, x)
  }

  ghost predicate CoversAt(sub: SubBounds, b: Bounds3, x: Bounds3) {
    Overlaps(x, b) ==> exists i :: 0 <= i < 8 && Overlaps(x, sub(b, i))
  }

  /**
   * With covering sub-boxes, every index of the buffer whose shape overlaps
   * the parameter box lands in some leaf of the built node.
   */
  lemma {:induction false} BuildKeepsOverlapping(shapes: seq<Shape>, sub: SubBounds, b: Bounds3, idx: seq<nat>, depth: nat, i: nat)
    requires IndicesIn(idx, |shapes|) && Covers(sub)
    requires i in idx && Overlaps(shapes[i].bounds, b)
    ensures var r := BuildNode(shapes, sub, b, idx, depth);
      r.Some? && ValidNode(r.value, |shapes|) && shapes[i] in Flatten(r.value, shapes)
    decreases Levels(depth)
  {
    BuildShape(shapes, sub, b, idx, depth);
    var r := BuildNode(shapes, sub, b, idx, depth).value;
    if |idx| <= MAX_LEAF_SIZE || depth > MAX_DEPTH {
      var p :| 0 <= p < |idx| && idx[p] == i;
      assert Pick(shapes, idx)[p] == shapes[i];
    } else {
      assert CoversAt(sub, b, shapes[i].bounds);
      var j :| 0 <= j < 8 && Overlaps(shapes[i].bounds, sub(b, j));
      var cidx := Filter(shapes, idx, sub(b, j));
      FilterMembers(shapes, idx, sub(b, j), i);
      BuildKeepsOverlapping(shapes, sub, sub(b, j), cidx, depth + 1, i);
      BuildChild(shapes, sub, b, idx, depth, j);
      ChildInFlatten(r, j, 8, shapes, shapes[i]);
    }
  }

  /** A shape below child `j` is below the first `k` children when `j < k`. */
  lemma {:induction false} ChildInFlatten(node: ONode, j: nat, k: nat, shapes: seq<Shape>, x: Shape)
    requires node.OInterior? && ValidNode(node, |shapes|) && j < k <= |node.children|
    requires node.children[j].Some? && x in Flatten(node.children[j].value, shapes)
    ensures x in FlattenChildren(node, k, shapes)
    decreases k
  {
    var init := FlattenChildren(node, k - 1, shapes);
    var c := node.children[k - 1];
    assert FlattenChildren(node, k, shapes) == init + (if c.None? then [] else Flatten(c.value, shapes));
    if j < k - 1 {
      ChildInFlatten(node, j, k - 1, shapes, x);
      assert x in init;
    } else {
      assert x in Flatten(c.value, shapes);
    }
  }

  /** A non-inverted box inside another overlaps it. */
  lemma ContainedOverlaps(outer: Bounds3, inner: Bounds3)
    requires ContainsBox(outer, inner) && Ordered(inner)
    ensures Overlaps(inner, outer)
  {
    LeTrans(outer.pMin.x, inner.pMin.x, Fin(inner.pMax.x));
    LeTrans(outer.pMin.y, inner.pMin.y, Fin(inner.pMax.y));
    LeTrans(outer.pMin.z, inner.pMin.z, Fin(inner.pMax.z));
  }

  /** The tree `build` makes: indices `0..n` in order, depth 0, the union of all bounds as the box. */
  function Root(shapes: seq<Shape>, sub: SubBounds): Option<ONode> {
    BuildNode(shapes, sub, ArrBounds(BoundsOf(shapes)), Range(|shapes|), 0)
  }

  /**
   * The leaves of the built tree hold exactly the attached shapes (each at
   * least once) when the sub-boxes cover their box and no shape's bounds is
   * inverted.
   */
  lemma {:induction false} RootHoldsAllShapes(shapes: seq<Shape>, sub: SubBounds)
    requires |shapes| > 0 && Covers(sub)
    requires forall j :: 0 <= j < |shapes| ==> Ordered(shapes[j].bounds)
    ensures Root(shapes, sub).Some? && ValidNode(Root(shapes, sub).value, |shapes|)
    ensures forall x :: x in Flatten(Root(shapes, sub).value, shapes) <==> x in shapes
  {
    var box := ArrBounds(BoundsOf(shapes));
    var idx := Range(|shapes|);
    assert Pick(shapes, idx) == shapes;
    BuildShape(shapes, sub, box, idx, 0);
    var root := Root(shapes, sub).value;
    forall x | x in Flatten(root, shapes) ensures x in shapes {
      BuildFlattenWithin(shapes, sub, box, idx, 0, x);
    }
    forall x | x in shapes ensures x in Flatten(root, shapes) {
      var j :| 0 <= j < |shapes| && shapes[j] == x;
      assert BoundsOf(shapes)[j] == x.bounds;
      ContainedOverlaps(box, x.bounds);
      assert idx[j] == j;
      BuildKeepsOverlapping(shapes, sub, box, idx, 0, j);
    }
  }

  /**
   * After `build`, a query returns the nearest candidate hit among all
   * attached shapes, or nothing when no shape has a hit in the ray's window,
   * and it only narrows `t_max`.
   */
  lemma {:induction false} OctreeFindsNearest(shapes: seq<Shape>, sub: SubBounds, hit: HitOracle, s0: RayState, cand: Shape -> Option<PrimHit>)
    requires |shapes| > 0 && Covers(sub)
    requires forall j :: 0 <= j < |shapes| ==> Ordered(shapes[j].bounds)
    requires WindowOracle(hit, s0, cand) && HitsInsideBounds(cand, s0)
    ensures Root(shapes, sub).Some? && ValidNode(Root(shapes, sub).value, |shapes|)
    ensures var r := OTraverse(Root(shapes, sub).value, shapes, hit, s0);
      && (r.winner.None? <==> forall j :: 0 <= j < |shapes| ==> !InWindow(cand(shapes[j]), s0.tMin, s0.tMax))
      && (r.winner.Some? ==>
            && r.winner.value.shape in shapes
            && Some(r.winner.value.hit) == cand(r.winner.value.shape)
            && InWindow(cand(r.winner.value.shape), s0.tMin, s0.tMax)
            && forall j :: 0 <= j < |shapes| && InWindow(cand(shapes[j]), s0.tMin, s0.tMax) ==>
                 r.winner.value.hit.t <= cand(shapes[j]).value.t)
      && r.ray == s0.(tMax := r.ray.tMax)
  {
    RootHoldsAllShapes(shapes, sub);
    var root := Root(shapes, sub).value;
    BuildContained(shapes, sub, ArrBounds(BoundsOf(shapes)), Range(|shapes|), 0);
    assert s0.(tMax := s0.tMax) == s0;
    TraverseIsScan(root, shapes, hit, s0, cand, s0.tMax);
    ScanOfSameShapes(Flatten(root, shapes), shapes, hit, s0, cand);
  }

  /** Scanning a list that holds exactly the shapes of `shapes` finds the nearest candidate among `shapes`. */
  lemma ScanOfSameShapes(list: seq<Shape>, shapes: seq<Shape>, hit: HitOracle, s0: RayState, cand: Shape -> Option<PrimHit>)
    requires WindowOracle(hit, s0, cand)
    requires forall x :: x in list <==> x in shapes
    ensures var r := Scan(list, hit, s0);
      && (r.winner.None? <==> forall j :: 0 <= j < |shapes| ==> !InWindow(cand(shapes[j]), s0.tMin, s0.tMax))
      && (r.winner.Some? ==>
            && r.winner.value.shape in shapes
            && Some(r.winner.value.hit) == cand(r.winner.value.shape)
            && InWindow(cand(r.winner.value.shape), s0.tMin, s0.tMax)
            && forall j :: 0 <= j < |shapes| && InWindow(cand(shapes[j]), s0.tMin, s0.tMax) ==>
                 r.winner.value.hit.t <= cand(shapes[j]).value.t)
      && r.ray == s0.(tMax := r.ray.tMax)
  {
    assert s0.(tMax := s0.tMax) == s0;
    ScanNearest(list, hit, s0, cand, s0.tMax);
    var r := Scan(list, hit, s0);
    if r.winner.None? {
      forall j | 0 <= j < |shapes| ensures !InWindow(cand(shapes[j]), s0.tMin, s0.tMax) {
        assert shapes[j] in list;
        var p :| 0 <= p < |list| && list[p] == shapes[j];
      }
    } else {
      var k :| IsNearest(list, cand, s0.tMin, s0.tMax, k) && r.winner.value == Winner(list[k], cand(list[k]).value);
      assert list[k] in list;
      forall j | 0 <= j < |shapes| && InWindow(cand(shapes[j]), s0.tMin, s0.tMax)
        ensures r.winner.value.hit.t <= cand(shapes[j]).value.t
      {
        assert shapes[j] in list;
        var p :| 0 <= p < |list| && list[p] == shapes[j];
      }
    }
  }

  // ------------------------------------------------------------------ index

  /** The last value present in `xs`, if any. */
  function LastSome<T>(xs: seq<Option<T>>): Option<T> {
    if |xs| == 0 then None
    else if xs[|xs| - 1].Some? then xs[|xs| - 1]
    else LastSome(xs[..|xs| - 1])
  }

  /** Nothing is found exactly when every child result is absent. */
  lemma {:induction false} LastSomeNone<T>(xs: seq<Option<T>>)
    ensures LastSome(xs).None? <==> forall k :: 0 <= k < |xs| ==> xs[k].None?
  {
    if |xs| > 0 {
      var n := |xs| - 1;
      var init := xs[..n];
      if xs[n].None? {
        LastSomeNone(init);
        assert forall k :: 0 <= k < n ==> init[k] == xs[k];
      }
    }
  }

  /** Otherwise the result is the last child result present. */
  lemma {:induction false} LastSomeLast<T>(xs: seq<Option<T>>)
    ensures var r := LastSome(xs);
      r.Some? ==> exists k :: 0 <= k < |xs| && xs[k] == r && forall j :: k < j < |xs| ==> xs[j].None?
  {
    if |xs| > 0 {
      var n := |xs| - 1;
      var init := xs[..n];
      var r := LastSome(xs);
      if xs[n].None? && r.Some? {
        LastSomeLast(init);
        var k :| 0 <= k < n && init[k] == r && forall j :: k < j < n ==> init[j].None?;
        assert xs[k] == init[k];
        forall j | k < j < |xs| ensures xs[j].None? {
          if j < n {
            assert xs[j] == init[j];
          }
        }
      }
    }
  }

  class Octree {
    var root: Option<ONode>
    var bounds: Bounds3
    var shapes: seq<Shape>

    /** `Octree::default()`: no root, an empty base. */
    constructor ()
      ensures root.None? && bounds == Default() && shapes == []
    {
      root := None;
      bounds := Default();
      shapes := [];
    }

    /** `attach_shape`: append at the end, nothing else changes. */
    method AttachShape(sh: Shape)
      modifies this
      ensures shapes == old(shapes) + [sh]
      ensures root == old(root) && bounds == old(bounds)
    {
      shapes := shapes + [sh];
    }

    /**
     * `recursively_build`: the node `BuildNode` describes, computed with the
     * source's loops over eight child buffers.
     */
    method RecursivelyBuild(sub: SubBounds, b: Bounds3, idx: seq<nat>, depth: nat) returns (r: Option<ONode>)
      requires IndicesIn(idx, |shapes|)
      ensures r == BuildNode(shapes, sub, b, idx, depth)
      decreases Levels(depth), 1
    {
      if |idx| == 0 {
        return None;
      }
      var box := ArrBounds(BoundsOf(Pick(shapes, idx)));
      if |idx| <= MAX_LEAF_SIZE || depth > MAX_DEPTH {
        return Some(OLeaf(box, idx));
      }
      var buffers := FillBuffers(sub, b, idx);
      var children := BuildChildren(sub, b, idx, depth, buffers);
      ghost var list := shapes;
      assert children == seq(8, i requires 0 <= i < 8 =>
                               BuildNode(list, sub, sub(b, i), Filter(list, idx, sub(b, i)), depth + 1));
      r := Some(OInterior(box, children));
    }

    /** The loop over the eight child buffers of an interior node, one level deeper. */
    method BuildChildren(sub: SubBounds, b: Bounds3, idx: seq<nat>, depth: nat, buffers: seq<seq<nat>>)
      returns (ch: seq<Option<ONode>>)
      requires IndicesIn(idx, |shapes|) && depth <= MAX_DEPTH
      requires |buffers| == 8 && forall k :: 0 <= k < 8 ==> buffers[k] == Filter(shapes, idx, sub(b, k))
      ensures |ch| == 8
      ensures forall k :: 0 <= k < 8 ==> ch[k] == BuildNode(shapes, sub, sub(b, k), Filter(shapes, idx, sub(b, k)), depth + 1)
      decreases Levels(depth), 0
    {
      ch := seq(8, _ => None);
      for i := 0 to 8
        invariant |ch| == 8
        invariant forall k :: 0 <= k < i ==> ch[k] == BuildNode(shapes, sub, sub(b, k), buffers[k], depth + 1)
      {
        var c := RecursivelyBuild(sub, sub(b, i), buffers[i], depth + 1);
        ch := ch[i := c];
      }
    }

    /** The nested loops that push each index into the buffer of every sub-box its shape overlaps. */
    method FillBuffers(sub: SubBounds, b: Bounds3, idx: seq<nat>) returns (buffers: seq<seq<nat>>)
      requires IndicesIn(idx, |shapes|)
      ensures |buffers| == 8 && forall k :: 0 <= k < 8 ==> buffers[k] == Filter(shapes, idx, sub(b, k))
    {
      var bufs := new seq<nat>[8](_ => []);
      for i := 0 to 8
        invariant forall k :: 0 <= k < i ==> bufs[k] == Filter(shapes, idx, sub(b, k))
        invariant forall k :: i <= k < 8 ==> bufs[k] == []
      {
        for j := 0 to |idx|
          invariant bufs[i] == Filter(shapes, idx[..j], sub(b, i))
          invariant forall k :: 0 <= k < i ==> bufs[k] == Filter(shapes, idx, sub(b, k))
          invariant forall k :: i < k < 8 ==> bufs[k] == []
        {
          assert idx[..j + 1][..j] == idx[..j];
          if Overlaps(shapes[idx[j]].bounds, sub(b, i)) {
            bufs[i] := bufs[i] + [idx[j]];
          }
        }
        assert idx[..|idx|] == idx;
      }
      buffers := bufs[..];
    }

    /**
     * `build`: the tree over indices `0..n` at depth 0 from the union of all
     * bounds, whose bounds becomes the base's; with no shapes there is no
     * root and the source panics, reported here as `panicked`.
     */
    method Build(sub: SubBounds) returns (panicked: bool)
      modifies this
      ensures shapes == old(shapes) && root == Root(shapes, sub)
      ensures panicked <==> |shapes| == 0
      ensures !panicked ==> root.Some? && bounds == root.value.bounds
      ensures panicked ==> bounds == old(bounds)
    {
      var box := ArrBounds(BoundsOf(shapes));
      var idx := Range(|shapes|);
      assert IndicesIn(idx, |shapes|);
      root := RecursivelyBuild(sub, box, idx, 0);
      if root.None? {
        return true;
      }
      bounds := root.value.bounds;
      panicked := false;
    }

    /** `get_intersection` on a node, narrowing the ray as it goes. */
    method GetIntersection(node: ONode, ray: Ray, hit: HitOracle) returns (q: Option<QueryHit>)
      requires ValidNode(node, |shapes|)
      modifies ray
      ensures q == ToQuery(OTraverse(node, shapes, hit, old(ray.State())).winner)
      ensures ray.State() == OTraverse(node, shapes, hit, old(ray.State())).ray
      decreases node, 1
    {
      var boxHit := IntersectP(node.bounds, ray);
      if !boxHit {
        return None;
      }
      match node
      case OLeaf(_, idx) =>
        q := ScanLeaf(idx, ray, hit);
      case OInterior(_, ch) =>
        var subRes := VisitChildren(node, ray, hit);
        q := LastPresent(subRes);
    }

    /**
     * The loop of a leaf: `dist` starts at infinity and becomes `t_max`
     * after each hit, whose primitive id, `u`, `v` and shape are kept; an
     * infinite `dist` at the end means nothing hit.
     */
    method ScanLeaf(idx: seq<nat>, ray: Ray, hit: HitOracle) returns (q: Option<QueryHit>)
      requires |idx| > 0 && IndicesIn(idx, |shapes|)
      modifies ray
      ensures q == ToQuery(Scan(Pick(shapes, idx), hit, old(ray.State())).winner)
      ensures ray.State() == Scan(Pick(shapes, idx), hit, old(ray.State())).ray
    {
      ghost var s0 := ray.State();
      ghost var list := Pick(shapes, idx);
      ghost var w: Option<Winner> := None;
      var dist: Ext := PosInf;
      var pId: nat, u: real, v: real := 0, 0.0, 0.0;
      assert idx[0] < |shapes|;
      var sp := shapes[0];
      for k := 0 to |idx|
        invariant ScanState(w, ray.State()) == Scan(list[..k], hit, s0)
        invariant w.None? <==> dist == PosInf
        invariant w.Some? ==> w.value.Query() == QueryHit(sp.geometryId, pId, u, v)
      {
        assert list[..k + 1][..k] == list[..k];
        var shape := shapes[idx[k]];
        var its := hit(shape, ray.State());
        if its.Some? {
          ray.tMax := its.value.t;
          dist := Fin(ray.tMax);
          pId, u, v := its.value.primId, its.value.u, its.value.v;
          sp := shape;
          w := Some(Winner(shape, its.value));
        }
      }
      assert list[..|idx|] == list;
      if dist == PosInf {
        return None;
      }
      q := Some(QueryHit(sp.geometryId, pId, u, v));
    }

    /** The children of an interior node in order, each result pushed onto `sub_res`. */
    method VisitChildren(node: ONode, ray: Ray, hit: HitOracle) returns (subRes: seq<Option<QueryHit>>)
      requires node.OInterior? && ValidNode(node, |shapes|)
      modifies ray
      ensures LastSome(subRes) == ToQuery(ChildrenScan(node, |node.children|, shapes, hit, old(ray.State())).winner)
      ensures ray.State() == ChildrenScan(node, |node.children|, shapes, hit, old(ray.State())).ray
      decreases node, 0
    {
      ghost var s0 := ray.State();
      var ch := node.children;
      subRes := [];
      for i := 0 to |ch|
        invariant ray.State() == ChildrenScan(node, i, shapes, hit, s0).ray
        invariant LastSome(subRes) == ToQuery(ChildrenScan(node, i, shapes, hit, s0).winner)
      {
        if ch[i].Some? {
          ghost var prev := subRes;
          var res := GetIntersection(ch[i].value, ray, hit);
          subRes := subRes + [res];
          assert subRes[..|subRes| - 1] == prev;
        }
      }
    }

    /** `sub_res` read backwards: the first result present, i.e. the last one pushed. */
    method LastPresent(subRes: seq<Option<QueryHit>>) returns (q: Option<QueryHit>)
      ensures q == LastSome(subRes)
    {
      var k := |subRes|;
      assert subRes[..k] == subRes;
      while k > 0
        invariant 0 <= k <= |subRes|
        invariant LastSome(subRes) == LastSome(subRes[..k])
      {
        assert subRes[..k][..k - 1] == subRes[..k - 1];
        k := k - 1;
        if subRes[k].Some? {
          return subRes[k];
        }
      }
      return None;
    }

    /** `ray_intersect`: nothing without a root, else the traversal's tuple. */
    method RayIntersect(ray: Ray, hit: HitOracle) returns (q: Option<QueryHit>)
      requires root.Some? ==> ValidNode(root.value, |shapes|)
      modifies ray
      ensures root.None? ==> q.None? && ray.State() == old(ray.State())
      ensures root.Some? ==>
        var t := OTraverse(root.value, shapes, hit, old(ray.State()));
        q == ToQuery(t.winner) && ray.State() == t.ray
    {
      if root.None? {
        return None;
      }
      q := GetIntersection(root.value, ray, hit);
    }

    /** `get_intersect` (with the tuple read in the order `ray_intersect` produces it). */
    method GetIntersect(ray: Ray, hit: HitOracle) returns (r: Lookup)
      requires root.Some? ==> ValidNode(root.value, |shapes|)
      modifies ray
      ensures root.None? ==> r == Miss && ray.State() == old(ray.State())
      ensures root.Some? ==>
        var t := OTraverse(root.value, shapes, hit, old(ray.State()));
        r == Acceleration.GetIntersect(shapes, ToQuery(t.winner), t.ray.tMax) && ray.State() == t.ray
    {
      var q := RayIntersect(ray, hit);
      r := Acceleration.GetIntersect(shapes, q, ray.tMax);
    }

    function Atp(): AccelerationType {
      AccelerationType.Octree
    }
  }
}
