/**
 * The bounding volume hierarchy (`bvh.rs`): a median split over index ranges
 * that reorders the shape list in place, and a two-child traversal in which
 * the right child's result wins when present.
 */
module Bvh {
  import opened Wrappers
  import opened ExtReal
  import opened Vectors
  import opened Rays
  import opened Bounds
  import opened Acceleration

  /** The largest range that becomes a leaf. */
  const MAX_PRIMS_IN_NODE: nat := 8

  /** A node: a leaf over `shapes[first..first + count]`, or two children. */
  datatype Node = Leaf(bounds: Bounds3, first: nat, count: nat) | Interior(bounds: Bounds3, left: Node, right: Node)

  // ------------------------------------------------- select_nth_unstable_by

  /** The comparison key of the split: the centroid along the chosen axis. */
  function Key(sh: Shape, axis: Axis): Ext {
    CentroidAxis(sh.bounds, axis)
  }

  predicate SortedByKey(s: seq<Shape>, axis: Axis) {
    forall i, j :: 0 <= i < j < |s| ==> Le(Key(s[i], axis), Key(s[j], axis))
  }

  /** The promise of `select_nth_unstable_by(n)`: nothing before `n` is above it, nothing after is below. */
  predicate IsNthElement(s: seq<Shape>, n: nat, axis: Axis) {
    && n < |s|
    && (forall i :: 0 <= i < n ==> Le(Key(s[i], axis), Key(s[n], axis)))
    && (forall j :: n < j < |s| ==> Le(Key(s[n], axis), Key(s[j], axis)))
  }

  function Insert(x: Shape, s: seq<Shape>, axis: Axis): (r: seq<Shape>)
    ensures multiset(r) == multiset(s) + multiset{x}
    ensures SortedByKey(s, axis) ==> SortedByKey(r, axis)
  {
    if |s| == 0 then [x]
    else if Le(Key(x, axis), Key(s[0], axis)) then
      InsertFront(x, s, axis);
      [x] + s
    else
      var rest := Insert(x, s[1..], axis);
      assert s == [s[0]] + s[1..];
      InsertBehind(x, s, rest, axis);
      [s[0]] + rest
  }

  lemma InsertFront(x: Shape, s: seq<Shape>, axis: Axis)
    requires |s| > 0 && Le(Key(x, axis), Key(s[0], axis))
    ensures SortedByKey(s, axis) ==> SortedByKey([x] + s, axis)
  {
    if SortedByKey(s, axis) {
      forall j | 0 < j < |s| + 1 ensures Le(Key(x, axis), Key(([x] + s)[j], axis)) {
        if j > 1 {
          LeTrans(Key(x, axis), Key(s[0], axis), Key(s[j - 1], axis));
        }
      }
    }
  }

  lemma InsertBehind(x: Shape, s: seq<Shape>, rest: seq<Shape>, axis: Axis)
    requires |s| > 0 && !Le(Key(x, axis), Key(s[0], axis))
    requires multiset(rest) == multiset(s[1..]) + multiset{x}
    requires SortedByKey(s[1..], axis) ==> SortedByKey(rest, axis)
    ensures SortedByKey(s, axis) ==> SortedByKey([s[0]] + rest, axis)
  {
    if SortedByKey(s, axis) {
      assert SortedByKey(s[1..], axis);
      LeTotal(Key(x, axis), Key(s[0], axis));
      forall j | 0 <= j < |rest| ensures Le(Key(s[0], axis), Key(rest[j], axis)) {
        assert rest[j] in multiset(rest);
        if rest[j] != x {
          assert rest[j] in multiset(s[1..]);
          var k :| 0 <= k < |s[1..]| && s[1..][k] == rest[j];
          assert s[k + 1] == rest[j];
        }
      }
    }
  }

  /** Insertion sort by key, one admissible outcome of the selection. */
  function SortByKey(s: seq<Shape>, axis: Axis): (r: seq<Shape>)
    ensures multiset(r) == multiset(s) && SortedByKey(r, axis)
  {
    if |s| == 0 then []
    else
      assert s == [s[0]] + s[1..];
      Insert(s[0], SortByKey(s[1..], axis), axis)
  }

  /**
   * `select_nth_unstable_by(n, ...)` on a slice: a reordering that puts the
   * `n`-th smallest key at `n`. Rust leaves the exact arrangement
   * unspecified; the model picks the sorted one and nothing else relies on that choice.
   */
  method SelectNthUnstableBy(s: seq<Shape>, n: nat, axis: Axis) returns (r: seq<Shape>)
    requires n < |s|
    ensures multiset(r) == multiset(s) && IsNthElement(r, n, axis)
  {
    r := SortByKey(s, axis);
    assert |r| == |multiset(r)| == |s|;
  }

  // ------------------------------------------------------------ build shape

  /** Every key of `s[b..m]` is at most every key of `s[m..e]`. */
  predicate Partitioned(s: seq<Shape>, b: nat, m: nat, e: nat, axis: Axis) {
    forall i, j :: b <= i < m <= j < e && j < |s| ==> Le(Key(s[i], axis), Key(s[j], axis))
  }

  /** Where `recursively_build` splits a range of more than eight shapes. */
  function SplitPoint(b: nat, e: nat): nat {
    b + (e - b) / 2 + 1
  }

  /** A split leaves two non-empty, strictly smaller ranges. */
  lemma SplitShrinks(b: nat, e: nat)
    requires e - b > MAX_PRIMS_IN_NODE
    ensures b < SplitPoint(b, e) < e
  {
  }

  /**
   * `node` is what `recursively_build(b, e)` produces over `s`: every node's
   * bounds is `box`, a range of at most eight shapes is a leaf over exactly
   * that range, and a larger one splits at `SplitPoint` with every key on the
   * left at most every key on the right along `box`'s longest axis.
   */
  ghost predicate WellBuilt(node: Node, s: seq<Shape>, b: nat, e: nat, box: Bounds3)
    decreases node
  {
    && b <= e <= |s|
    && node.bounds == box
    && match node
       case Leaf(_, first, count) => e - b <= MAX_PRIMS_IN_NODE && first == b && count == e - b
       case Interior(_, l, r) =>
         && e - b > MAX_PRIMS_IN_NODE
         && WellBuilt(l, s, b, SplitPoint(b, e), box)
         && WellBuilt(r, s, SplitPoint(b, e), e, box)
         && Partitioned(s, b, SplitPoint(b, e), e, MaxExtent(box))
  }

  /** `s` and `t` agree everywhere outside `[b, e)`. */
  ghost predicate SameOutside(s: seq<Shape>, t: seq<Shape>, b: nat, e: nat) {
    |s| == |t| && forall i :: 0 <= i < |s| && (i < b || e <= i) ==> s[i] == t[i]
  }

  /** A built node only looks at its own range. */
  lemma {:induction false} WellBuiltFrame(node: Node, s: seq<Shape>, t: seq<Shape>, b: nat, e: nat, box: Bounds3)
    requires WellBuilt(node, s, b, e, box) && e <= |t|
    requires forall i :: b <= i < e ==> s[i] == t[i]
    ensures WellBuilt(node, t, b, e, box)
    decreases node
  {
    if node.Interior? {
      var m := SplitPoint(b, e);
      WellBuiltFrame(node.left, s, t, b, m, box);
      WellBuiltFrame(node.right, s, t, m, e, box);
    }
  }

  /** A selection at `mid` partitions the range around `b + mid + 1`. */
  lemma NthPartitions(s: seq<Shape>, b: nat, e: nat, mid: nat, axis: Axis)
    requires b <= e <= |s| && IsNthElement(s[b..e], mid, axis)
    ensures Partitioned(s, b, b + mid + 1, e, axis)
  {
    var r := s[b..e];
    forall i, j | b <= i < b + mid + 1 <= j < e ensures Le(Key(s[i], axis), Key(s[j], axis)) {
      assert s[i] == r[i - b] && s[j] == r[j - b];
      if i < b + mid {
        LeTrans(Key(r[i - b], axis), Key(r[mid], axis), Key(r[j - b], axis));
      }
    }
  }

  lemma InMultisetSlice(s: seq<Shape>, t: seq<Shape>, b: nat, e: nat, i: nat)
    requires b <= i < e <= |t| && e <= |s| && multiset(s[b..e]) == multiset(t[b..e])
    ensures exists k :: b <= k < e && s[k] == t[i]
  {
    assert t[i] == t[b..e][i - b];
    assert t[i] in multiset(s[b..e]);
    var k' :| 0 <= k' < e - b && s[b..e][k'] == t[i];
    assert s[b + k'] == t[i];
  }

  /** Reordering within each side keeps a partition. */
  lemma PartitionPermuted(s: seq<Shape>, t: seq<Shape>, b: nat, m: nat, e: nat, axis: Axis)
    requires b <= m <= e <= |s| == |t|
    requires Partitioned(s, b, m, e, axis)
    requires multiset(s[b..m]) == multiset(t[b..m]) && multiset(s[m..e]) == multiset(t[m..e])
    ensures Partitioned(t, b, m, e, axis)
  {
    forall i, j | b <= i < m <= j < e ensures Le(Key(t[i], axis), Key(t[j], axis)) {
      InMultisetSlice(s, t, b, m, i);
      InMultisetSlice(s, t, m, e, j);
    }
  }

  /** What `recursively_build(b, e)` leaves: `t` from `s`, and the node it returns. */
  ghost predicate BuiltFrom(node: Node, s: seq<Shape>, t: seq<Shape>, b: nat, e: nat) {
    && b <= e <= |s|
    && SameOutside(t, s, b, e)
    && multiset(t[b..e]) == multiset(s[b..e])
    && WellBuilt(node, t, b, e, ArrBounds(BoundsOf(s)))
  }

  /** A range of at most eight shapes is built as one leaf, and nothing moves. */
  lemma LeafBuilt(s: seq<Shape>, b: nat, e: nat)
    requires b <= e <= |s| && e - b <= MAX_PRIMS_IN_NODE
    ensures BuiltFrom(Leaf(ArrBounds(BoundsOf(s)), b, e - b), s, s, b, e)
  {
  }

  /** Two lists that agree outside `[b, e)` and are reorderings inside are reorderings. */
  lemma SpliceMultiset(s: seq<Shape>, t: seq<Shape>, b: nat, e: nat)
    requires b <= e <= |s| && SameOutside(s, t, b, e)
    requires multiset(s[b..e]) == multiset(t[b..e])
    ensures multiset(s) == multiset(t)
  {
    assert s[..b] == t[..b] && s[e..] == t[e..];
    assert s == s[..b] + s[b..e] + s[e..];
    assert t == t[..b] + t[b..e] + t[e..];
  }

  lemma SliceSplit(s: seq<Shape>, b: nat, m: nat, e: nat)
    requires b <= m <= e <= |s|
    ensures multiset(s[b..e]) == multiset(s[b..m]) + multiset(s[m..e])
  {
    assert s[b..e] == s[b..m] + s[m..e];
  }

  /** Reordering the shapes leaves the union of their bounds unchanged. */
  lemma ArrBoundsOfPermutation(s: seq<Shape>, t: seq<Shape>)
    requires multiset(s) == multiset(t)
    ensures ArrBounds(BoundsOf(s)) == ArrBounds(BoundsOf(t))
  {
    BoundsOfPermutation(s, t);
    ArrBoundsPermutation(BoundsOf(s), BoundsOf(t));
  }

  // ---------------------------------------------------------------- traversal

  /**
   * Every leaf's range lies inside the list. A leaf that passes the box test
   * reads `shapes[first]`, so `first` must be a valid index, except in the one
   * empty leaf with the default box that `build` makes for an empty list: no
   * ray passes that box test (`DefaultMisses`).
   */
  predicate LeavesIn(node: Node, n: nat) {
    match node
    case Leaf(box, first, count) => first + count <= n && (first < n || (n == 0 && box == Default()))
    case Interior(_, l, r) => LeavesIn(l, n) && LeavesIn(r, n)
  }

  /** A built node over a non-empty range has only valid leaves. */
  lemma {:induction false} WellBuiltLeavesIn(node: Node, s: seq<Shape>, b: nat, e: nat, box: Bounds3)
    requires WellBuilt(node, s, b, e, box) && b < e
    ensures LeavesIn(node, |s|)
    decreases node
  {
    if node.Interior? {
      SplitShrinks(b, e);
      WellBuiltLeavesIn(node.left, s, b, SplitPoint(b, e), box);
      WellBuiltLeavesIn(node.right, s, SplitPoint(b, e), e, box);
    }
  }

  /** A root built over the whole list has only valid leaves, also when the list is empty. */
  lemma BuiltLeavesIn(node: Node, s: seq<Shape>, box: Bounds3)
    requires WellBuilt(node, s, 0, |s|, box) && (|s| > 0 || box == Default())
    ensures LeavesIn(node, |s|)
  {
    if |s| > 0 {
      WellBuiltLeavesIn(node, s, 0, |s|, box);
    }
  }

  /**
   * `get_intersection`: a failed box test gives nothing; a leaf scans its
   * range; an interior node visits left then right with the narrowed ray,
   * and the right result wins when present.
   */
  function Traverse(node: Node, shapes: seq<Shape>, hit: HitOracle, s: RayState): (r: ScanState)
    requires LeavesIn(node, |shapes|)
    ensures r.ray == s.(tMax := r.ray.tMax)
    ensures r.winner.None? ==> r.ray == s
    ensures |shapes| == 0 ==> r == ScanState(None, s)
  {
    if !SlabHit(node.bounds, s) then ScanState(None, s)
    else match node
      case Leaf(_, first, count) => Scan(shapes[first..first + count], hit, s)
      case Interior(_, l, r) =>
        var a := Traverse(l, shapes, hit, s);
        Combine(a, Traverse(r, shapes, hit, a.ray))
  }

  /** A failed box test around every shape of a range is as good as scanning the range. */
  lemma MissedBoxIsScan(shapes: seq<Shape>, b: nat, e: nat, box: Bounds3,
                        hit: HitOracle, s0: RayState, cand: Shape -> Option<PrimHit>, tm: real)
    requires b <= e <= |shapes|
    requires forall j :: 0 <= j < |shapes| ==> ContainsBox(box, shapes[j].bounds)
    requires WindowOracle(hit, s0, cand) && HitsInsideBounds(cand, s0)
    requires !SlabHit(box, s0.(tMax := tm))
    ensures Scan(shapes[b..e], hit, s0.(tMax := tm)) == ScanState(None, s0.(tMax := tm))
  {
    var list := shapes[b..e];
    forall j | 0 <= j < |list| ensures ContainsBox(box, list[j].bounds) {
      assert list[j] == shapes[b + j];
    }
    ScanMissesOutsideBox(list, hit, s0, cand, tm, box);
  }

  /**
   * When hits lie inside shape bounds, traversing a built node is scanning
   * its whole range in order: a box test can only fail where no shape of the
   * range has a hit left in the window.
   */
  lemma {:induction false} TraverseIsScan(node: Node, shapes: seq<Shape>, b: nat, e: nat, box: Bounds3,
                                          hit: HitOracle, s0: RayState, cand: Shape -> Option<PrimHit>, tm: real)
    requires WellBuilt(node, shapes, b, e, box) && LeavesIn(node, |shapes|)
    requires forall j :: 0 <= j < |shapes| ==> ContainsBox(box, shapes[j].bounds)
    requires WindowOracle(hit, s0, cand) && HitsInsideBounds(cand, s0)
    ensures Traverse(node, shapes, hit, s0.(tMax := tm)) == Scan(shapes[b..e], hit, s0.(tMax := tm))
    decreases node, 1
  {
    var s := s0.(tMax := tm);
    if !SlabHit(box, s) {
      MissedBoxIsScan(shapes, b, e, box, hit, s0, cand, tm);
    } else if node.Leaf? {
      assert node.first == b && node.first + node.count == e;
    } else {
      InteriorTraverseIsScan(node, shapes, b, e, box, hit, s0, cand, tm);
    }
  }

  /** The interior case of `TraverseIsScan`, where the box test passes. */
  lemma {:induction false} InteriorTraverseIsScan(node: Node, shapes: seq<Shape>, b: nat, e: nat, box: Bounds3,
                                                  hit: HitOracle, s0: RayState, cand: Shape -> Option<PrimHit>, tm: real)
    requires node.Interior? && WellBuilt(node, shapes, b, e, box) && LeavesIn(node, |shapes|)
    requires SlabHit(box, s0.(tMax := tm))
    requires forall j :: 0 <= j < |shapes| ==> ContainsBox(box, shapes[j].bounds)
    requires WindowOracle(hit, s0, cand) && HitsInsideBounds(cand, s0)
    ensures Traverse(node, shapes, hit, s0.(tMax := tm)) == Scan(shapes[b..e], hit, s0.(tMax := tm))
    decreases node, 0
  {
    var s := s0.(tMax := tm);
    var m := SplitPoint(b, e);
    TraverseIsScan(node.left, shapes, b, m, box, hit, s0, cand, tm);
    var a := Traverse(node.left, shapes, hit, s);
    assert a.ray == s0.(tMax := a.ray.tMax);
    TraverseIsScan(node.right, shapes, m, e, box, hit, s0, cand, a.ray.tMax);
    InteriorTraverse(node, shapes, hit, s);
    InteriorIsScan(shapes, b, m, e, hit, s);
  }

  /** A box test that passes at an interior node visits left, then right with the ray the left left. */
  lemma InteriorTraverse(node: Node, shapes: seq<Shape>, hit: HitOracle, s: RayState)
    requires node.Interior? && LeavesIn(node, |shapes|) && SlabHit(node.bounds, s)
    ensures var a := Traverse(node.left, shapes, hit, s);
      Traverse(node, shapes, hit, s) == Combine(a, Traverse(node.right, shapes, hit, a.ray))
  {
  }

  /** The scans of two adjacent ranges in order, the second result preferred, are the scan of their union. */
  lemma InteriorIsScan(shapes: seq<Shape>, b: nat, m: nat, e: nat, hit: HitOracle, s: RayState)
    requires b <= m <= e <= |shapes|
    ensures var a := Scan(shapes[b..m], hit, s);
      Combine(a, Scan(shapes[m..e], hit, a.ray)) == Scan(shapes[b..e], hit, s)
  {
    var l1, l2 := shapes[b..m], shapes[m..e];
    ScanAppend(l1, l2, hit, s);
    assert l1 + l2 == shapes[b..e];
  }

  /** Splicing a selection of `s[b..e]` back in reorders only that range and partitions it. */
  lemma SelectedSplice(s: seq<Shape>, part: seq<Shape>, b: nat, e: nat, mid: nat, axis: Axis)
    requires b <= e <= |s| && multiset(part) == multiset(s[b..e]) && IsNthElement(part, mid, axis)
    ensures var t := s[..b] + part + s[e..];
      && SameOutside(t, s, b, e) && t[b..e] == part
      && multiset(t[b..e]) == multiset(s[b..e])
      && Partitioned(t, b, b + mid + 1, e, axis)
  {
    var t := s[..b] + part + s[e..];
    assert |part| == |multiset(part)| == e - b;
    assert t[b..e] == part;
    NthPartitions(t, b, e, mid, axis);
  }

  /**
   * The selection (`s0` to `s1`), the left recursive call (`s1` to `s2`) and
   * the right one (`s2` to `s3`) of `recursively_build` together give the
   * postcondition of the interior node.
   */
  lemma InteriorBuilt(s0: seq<Shape>, s1: seq<Shape>, s2: seq<Shape>, s3: seq<Shape>, b: nat, m: nat, e: nat, l: Node, r: Node)
    requires e - b > MAX_PRIMS_IN_NODE && e <= |s0| && m == SplitPoint(b, e)
    requires SameOutside(s1, s0, b, e) && multiset(s1[b..e]) == multiset(s0[b..e])
    requires Partitioned(s1, b, m, e, MaxExtent(ArrBounds(BoundsOf(s0))))
    requires BuiltFrom(l, s1, s2, b, m)
    requires BuiltFrom(r, s2, s3, m, e)
    ensures BuiltFrom(Interior(ArrBounds(BoundsOf(s0)), l, r), s0, s3, b, e)
  {
    var box := ArrBounds(BoundsOf(s0));
    SplitShrinks(b, e);
    SpliceMultiset(s1, s0, b, e);
    ArrBoundsOfPermutation(s1, s0);
    TwoCalls(s1, s2, s3, b, m, e);
    ArrBoundsOfPermutation(s2, s1);
    WellBuiltFrame(l, s2, s3, b, m, box);
    PartitionPermuted(s1, s3, b, m, e, MaxExtent(box));
  }

  /** What a call on `[b, m)` followed by a call on `[m, e)` leaves of the list. */
  lemma TwoCalls(s1: seq<Shape>, s2: seq<Shape>, s3: seq<Shape>, b: nat, m: nat, e: nat)
    requires b <= m <= e <= |s1|
    requires SameOutside(s2, s1, b, m) && multiset(s2[b..m]) == multiset(s1[b..m])
    requires SameOutside(s3, s2, m, e) && multiset(s3[m..e]) == multiset(s2[m..e])
    ensures SameOutside(s3, s1, b, e)
    ensures forall i :: b <= i < m ==> s3[i] == s2[i]
    ensures multiset(s2) == multiset(s1)
    ensures multiset(s3[b..m]) == multiset(s1[b..m]) && multiset(s3[m..e]) == multiset(s1[m..e])
    ensures multiset(s3[b..e]) == multiset(s1[b..e])
  {
    SpliceMultiset(s2, s1, b, m);
    assert s3[b..m] == s2[b..m];
    assert s2[m..e] == s1[m..e];
    SliceSplit(s1, b, m, e);
    SliceSplit(s3, b, m, e);
  }

  class BvhAccel {
    var root: Option<Node>
    var bounds: Bounds3
    var shapes: seq<Shape>

    /** `BVHAccel::default()`: no root, an empty base. */
    constructor ()
      ensures root.None? && bounds == Default() && shapes == []
    {
      root := None;
      bounds := Default();
      shapes := [];
    }

    /** `attach_shape`: append at the end, nothing else changes. */
    method AttachShape(sh: Shape)
      modifies this
      ensures shapes == old(shapes) + [sh]
      ensures root == old(root) && bounds == old(bounds)
    {
      shapes := shapes + [sh];
    }

    /**
     * `recursively_build(shapes, b, e)`: only `shapes[b..e]` is reordered,
     * and the node is built as `WellBuilt` describes, with the union of the
     * bounds of the whole list at every node.
     */
    /**
     * `select_nth_unstable_by` on `shapes[b..e]` along `axis`: the range is
     * rearranged so that position `b + mid` splits it, and nothing outside
     * it moves.
     */
    method PartitionRange(b: nat, e: nat, mid: nat, axis: Axis)
      requires b <= e <= |shapes| && mid < e - b
      modifies this
      ensures root == old(root) && bounds == old(bounds)
      ensures SameOutside(shapes, old(shapes), b, e) && multiset(shapes[b..e]) == multiset(old(shapes)[b..e])
      ensures Partitioned(shapes, b, b + mid + 1, e, axis)
    {
      var part := SelectNthUnstableBy(shapes[b..e], mid, axis);
      SelectedSplice(shapes, part, b, e, mid, axis);
      shapes := shapes[..b] + part + shapes[e..];
    }

    method RecursivelyBuild(b: nat, e: nat) returns (node: Node)
      requires b <= e <= |shapes|
      modifies this
      decreases e - b
      ensures BuiltFrom(node, old(shapes), shapes, b, e)
      ensures root == old(root)
      ensures bounds == old(bounds)
    {
      var box := ArrBounds(BoundsOf(shapes));
      if e - b <= MAX_PRIMS_IN_NODE {
        LeafBuilt(shapes, b, e);
        return Leaf(box, b, e - b);
      }
      ghost var s0 := shapes;
      var mid := (e - b) / 2;
      var axis := MaxExtent(box);
      PartitionRange(b, e, mid, axis);
      ghost var s1 := shapes;
      var m := b + mid + 1;
      SplitShrinks(b, e);
      var l := RecursivelyBuild(b, m);
      ghost var s2 := shapes;
      assert BuiltFrom(l, s1, s2, b, m);
      var r := RecursivelyBuild(m, e);
      ghost var s3 := shapes;
      assert BuiltFrom(r, s2, s3, m, e);
      InteriorBuilt(s0, s1, s2, s3, b, m, e, l, r);
      node := Interior(box, l, r);
    }

    /**
     * `build`: the root is built over the whole list, which is only
     * reordered, and the base's bounds become the root's.
     */
    method Build()
      modifies this
      ensures multiset(shapes) == multiset(old(shapes))
      ensures root.Some? && WellBuilt(root.value, shapes, 0, |shapes|, ArrBounds(BoundsOf(old(shapes))))
      ensures bounds == root.value.bounds == ArrBounds(BoundsOf(old(shapes)))
      ensures LeavesIn(root.value, |shapes|)
    {
      var n := |shapes|;
      ghost var s0 := shapes;
      var node := RecursivelyBuild(0, n);
      assert shapes[0..n] == shapes && s0[0..n] == s0;
      bounds := node.bounds;
      root := Some(node);
      BuiltLeavesIn(node, shapes, ArrBounds(BoundsOf(s0)));
    }

    /** `get_intersection` on a node, narrowing the ray as it goes. */
    method GetIntersection(node: Node, ray: Ray, hit: HitOracle) returns (w: Option<Winner>)
      requires LeavesIn(node, |shapes|) && (|shapes| == 0 ==> InverseNonZero(ray.State()))
      modifies ray
      ensures ScanState(w, ray.State()) == Traverse(node, shapes, hit, old(ray.State()))
      decreases node
    {
      var boxHit := IntersectP(node.bounds, ray);
      if !boxHit {
        return None;
      }
      match node
      case Leaf(_, first, count) =>
        if |shapes| == 0 {
          DefaultMisses(ray.State());
          assert false;
        }
        // `shapes[first]` is read here.
        assert first < |shapes|;
        w := ScanShapes(shapes[first..first + count], ray, hit);
      case Interior(_, l, r) =>
        var hit1 := GetIntersection(l, ray, hit);
        var hit2 := GetIntersection(r, ray, hit);
        w := if hit2.Some? then hit2 else hit1;
    }

    /** `ray_intersect`: nothing without a root, else the winner's tuple without its distance. */
    method RayIntersect(ray: Ray, hit: HitOracle) returns (q: Option<QueryHit>)
      requires root.Some? ==> LeavesIn(root.value, |shapes|)
      requires |shapes| == 0 ==> InverseNonZero(ray.State())
      modifies ray
      ensures root.None? ==> q.None? && ray.State() == old(ray.State())
      ensures root.Some? ==>
        var t := Traverse(root.value, shapes, hit, old(ray.State()));
        q == ToQuery(t.winner) && ray.State() == t.ray
      ensures |shapes| == 0 ==> q.None? && ray.State() == old(ray.State())
    {
      if root.None? {
        return None;
      }
      var w := GetIntersection(root.value, ray, hit);
      q := ToQuery(w);
    }

    /** `get_intersect` (with the tuple read in the order `ray_intersect` produces it). */
    method GetIntersect(ray: Ray, hit: HitOracle) returns (r: Lookup)
      requires root.Some? ==> LeavesIn(root.value, |shapes|)
      requires |shapes| == 0 ==> InverseNonZero(ray.State())
      modifies ray
      ensures root.None? ==> r == Miss && ray.State() == old(ray.State())
      ensures root.Some? ==>
        var t := Traverse(root.value, shapes, hit, old(ray.State()));
        r == Acceleration.GetIntersect(shapes, ToQuery(t.winner), t.ray.tMax) && ray.State() == t.ray
      ensures |shapes| == 0 ==> r == Miss && ray.State() == old(ray.State())
    {
      var q := RayIntersect(ray, hit);
      r := Acceleration.GetIntersect(shapes, q, ray.tMax);
    }

    function Atp(): AccelerationType {
      Bvh
    }
  }

  /**
   * After `build` over a non-empty list, a query returns the nearest
   * candidate hit among all shapes (the earliest in the reordered list on
   * ties), or nothing when no shape has a hit in the ray's window.
   */
  lemma BuiltBvhFindsNearest(root: Node, shapes: seq<Shape>, hit: HitOracle, s0: RayState, cand: Shape -> Option<PrimHit>)
    requires |shapes| > 0 && WellBuilt(root, shapes, 0, |shapes|, ArrBounds(BoundsOf(shapes)))
    requires WindowOracle(hit, s0, cand) && HitsInsideBounds(cand, s0)
    ensures LeavesIn(root, |shapes|)
    ensures var r := Traverse(root, shapes, hit, s0);
      && (r.winner.None? <==> forall j :: 0 <= j < |shapes| ==> !InWindow(cand(shapes[j]), s0.tMin, s0.tMax))
      && (r.winner.Some? ==> exists k :: IsNearest(shapes, cand, s0.tMin, s0.tMax, k) && r.winner.value == Winner(shapes[k], cand(shapes[k]).value))
      && r.ray == s0.(tMax := r.ray.tMax)
  {
    var box := ArrBounds(BoundsOf(shapes));
    WellBuiltLeavesIn(root, shapes, 0, |shapes|, box);
    assert s0.(tMax := s0.tMax) == s0;
    TraverseIsScan(root, shapes, 0, |shapes|, box, hit, s0, cand, s0.tMax);
    assert shapes[0..|shapes|] == shapes;
    ScanNearest(shapes, hit, s0, cand, s0.tMax);
  }
}
